/** The tree itself: a `BTree` holds its root node, its item count and the bounds
    and ordering its nodes follow (btree/btree.go:12-24, 54-81). Its operations
    change the root in place; the nodes below are values, so the copy-on-write of
    nodes shows only in their isoid tags. */
module BTrees {
  import opened Ordering
  import opened BTreeNodes
  import opened BTreeSearch
  import opened BTreeInsert
  import opened BTreeDelete
  import opened BTreePaths
  import opened BTreeScans

  /** The supply of isoids: Go's package-wide counter behind `newIsoID`. */
  class IsoIds {
    var last: nat

    constructor ()
      ensures last == 0
    {
      last := 0;
    }

    /** newIsoID: the next id, larger than every id handed out before. */
    method Next() returns (id: nat)
      modifies this
      ensures id == old(last) + 1 && last == id
    {
      last := last + 1;
      id := last;
    }
  }

  class BTree<T> {
    var isoid: nat
    var root: Option<Node<T>>
    var count: int
    const min: int
    const max: int
    const less: Order<T>
    /** The number of levels below the root. */
    ghost var height: nat

    /** What the node-level operations read of the tree. */
    function Cfg(): (cfg: Config<T>)
      reads this
      ensures cfg.isoid == isoid && cfg.min == min && cfg.max == max && cfg.less == less
    {
      Config(isoid, min, max, less)
    }

    /** No root exactly when the tree is empty; otherwise a well-formed root whose
        cached count is the tree's. */
    ghost predicate Valid()
      reads this
    {
      Rooted(Cfg(), root, count, height)
    }

    /** The items of the tree in order. */
    ghost function Contents(): (s: seq<T>)
      reads this
      requires Valid()
      ensures Ascending(less, s) && |s| == count
    {
      Items(root)
    }

    /** NewBTreeOptions: an empty tree with a fresh isoid and node bounds taken from
        `degree`; NewBTree passes a degree of 2, NewBTreeFunc one of 0. */
    constructor (less: Order<T>, degree: int, ids: IsoIds)
      modifies ids
      ensures Valid() && Contents() == []
      ensures (min, max) == DegreeToMinMax(degree) && this.less == less
      ensures isoid == ids.last == old(ids.last) + 1
    {
      var id := ids.Next();
      var bounds := DegreeToMinMax(degree);
      isoid, root, count, height := id, None, 0, 0;
      min, max, this.less := bounds.0, bounds.1, less;
    }

    /** `*tr2 = *tr` under a new isoid: a second tree over the same nodes. */
    constructor Clone(src: BTree<T>, id: nat)
      requires src.Valid() && src.isoid < id
      ensures Valid() && root == src.root && count == src.count && isoid == id
      ensures min == src.min && max == src.max && less == src.less
      ensures Contents() == src.Contents()
    {
      isoid, root, count, height := id, src.root, src.count, src.height;
      min, max, less := src.min, src.max, src.less;
      new;
      if root.Some? {
        Rekeyed(src.Cfg(), id, root.value, 1);
        TagsRaised(root.value, src.isoid + 1, id + 1);
      }
    }

    /** setHint: upserts `item`. An equivalent item is overwritten and returned, and
        the size stays; otherwise the item is inserted at its place and the size
        grows by one. When the root splits, it becomes the left half under a new
        root, the tree grows one level, and the upsert starts over. */
    method SetHint(item: T, hint: PathHint?) returns (prev: Option<T>)
      requires Valid() && (hint != null ==> hint.Valid())
      modifies this, HintFrame(hint)
      decreases if root.Some? && FullPath(Cfg(), root.value, item) then 1 else 0
      ensures Valid() && isoid == old(isoid)
      ensures prev == Lookup(less, old(Contents()), item)
      ensures Contents() == Upserted(less, old(Contents()), item)
      ensures count == old(count) + (if prev.Some? then 0 else 1)
      ensures old(root).Some? ==>
        height == old(height) + (if FullPath(old(Cfg()), old(root).value, item) then 1 else 0)
      ensures root.Some? ==> Owned(root.value, old(root), isoid)
    {
      if root.None? {
        OwnedNode(Leaf(isoid, 1, [item]), None, isoid);
        root, count, height := Some(Leaf(isoid, 1, [item])), 1, 0;
        return None;
      }
      ghost var o := root;
      var split;
      prev, split := TrySet(item, hint);
      if split {
        ghost var r := root;
        SplitRoot();
        ghost var s := root;
        prev := SetHint(item, hint);
        RootTrans(s, r, o, isoid);
        RootTrans(root, s, o, isoid);
      }
    }

    /** The body of setHint below an existing root: the root's set, which either
        upserts the item or reports a full path and changes nothing but the copy
        of the root. */
    method TrySet(item: T, hint: PathHint?) returns (prev: Option<T>, split: bool)
      requires Valid() && root.Some? && (hint != null ==> hint.Valid())
      modifies this, HintFrame(hint)
      ensures Valid() && isoid == old(isoid) && height == old(height) && root.Some?
      ensures split == FullPath(old(Cfg()), old(root).value, item)
      ensures split ==> prev == None && Contents() == old(Contents()) && |root.value.items| == max
      ensures !split ==> prev == Lookup(less, old(Contents()), item)
      ensures !split ==> Contents() == Upserted(less, old(Contents()), item)
      ensures count == old(count) + (if split || prev.Some? then 0 else 1)
      ensures Owned(root.value, old(root), isoid)
    {
      var r, p, sp := RootSet(Cfg(), root.value, item, hint, height);
      root, prev, split := Some(r), p, sp;
      if !split && p.None? {
        count := count + 1;
      }
    }

    /** The root split of setHint: the full root is split in two halves under a new
        root that holds the median, and the tree grows one level. */
    method SplitRoot()
      requires Valid() && root.Some? && |root.value.items| == max
      modifies this
      ensures Valid() && isoid == old(isoid) && Contents() == old(Contents())
      ensures root.Some? && |root.value.items| == 1 && height == old(height) + 1
      ensures root.Some? ==> Owned(root.value, old(root), isoid)
    {
      ghost var o := root;
      var top := SplitTop(Cfg(), root.value, height);
      TagsOwned(top, o, isoid);
      root, height := Some(top), height + 1;
    }

    /** Upsert: setHint without a hint. */
    method Upsert(item: T) returns (prev: Option<T>)
      requires Valid()
      modifies this
      ensures Valid() && isoid == old(isoid)
      ensures prev == Lookup(less, old(Contents()), item)
      ensures Contents() == Upserted(less, old(Contents()), item)
      ensures count == old(count) + (if prev.Some? then 0 else 1)
      ensures root.Some? ==> Owned(root.value, old(root), isoid)
    {
      prev := SetHint(item, null);
    }

    /** getHint: the item equivalent to `key`, looked up from the root down. */
    method GetHint(key: T, hint: PathHint?) returns (r: Option<T>)
      requires Valid() && (hint != null ==> hint.Valid())
      modifies HintFrame(hint)
      ensures r == Lookup(less, Contents(), key)
      ensures r.Some? ==> r.value in Contents() && less.Equiv(r.value, key)
    {
      if root.None? {
        return None;
      }
      var n, depth := root.value, 0;
      ghost var k: nat := height;
      while true
        invariant Wf(Cfg(), n, k, 1)
        invariant Lookup(less, Contents(), key) == Lookup(less, Walk(n), key)
        decreases k
      {
        ItemsAscending(less, n);
        var i, found := Find(less, n, key, hint, depth);
        if found {
          UpsertFound(Cfg(), n, k, 1, i, key);
          return Some(n.items[i]);
        }
        if n.Leaf? {
          return None;
        }
        LookupBelow(less, n, i, key);
        ChildWf(Cfg(), n, k, 1, i);
        Refill(Cfg(), n.children[i], min, 1);
        n, depth, k := n.children[i], depth + 1, k - 1;
      }
    }

    /** Get: getHint without a hint. */
    method Get(key: T) returns (r: Option<T>)
      requires Valid()
      ensures r == Lookup(less, Contents(), key)
    {
      r := GetHint(key, null);
    }

    /** Len: the number of items. */
    function Len(): (n: int)
      reads this
      requires Valid()
      ensures n == |Contents()|
    {
      count
    }

    /** deleteHint: deletes the item equivalent to `key` and returns it; an absent key
        changes nothing. A root left without items but with a child gives way to
        that child, and an emptied tree loses its root. */
    method DeleteHint(key: T, hint: PathHint?) returns (prev: Option<T>)
      requires Valid() && (hint != null ==> hint.Valid())
      modifies this, HintFrame(hint)
      ensures Valid() && isoid == old(isoid)
      ensures prev == Lookup(less, old(Contents()), key)
      ensures Contents() == Removed(less, old(Contents()), key)
      ensures count == old(count) - (if prev.Some? then 1 else 0)
      ensures count == 0 ==> root.None?
      ensures root.Some? ==> Owned(root.value, old(root), isoid)
    {
      if root.None? {
        return None;
      }
      var top;
      top, height, prev := RootDelete(Cfg(), root.value, key, hint, height);
      root := top;
      if prev.Some? {
        count := count - 1;
      }
    }

    /** Delete: deleteHint without a hint. */
    method Delete(key: T) returns (prev: Option<T>)
      requires Valid()
      modifies this
      ensures Valid() && isoid == old(isoid)
      ensures prev == Lookup(less, old(Contents()), key)
      ensures Contents() == Removed(less, old(Contents()), key)
      ensures count == old(count) - (if prev.Some? then 1 else 0)
      ensures root.Some? ==> Owned(root.value, old(root), isoid)
    {
      prev := DeleteHint(key, null);
    }

    /** Min: the first item, down the leftmost children. */
    method Min() returns (r: Option<T>)
      requires Valid()
      ensures r == if Contents() == [] then None else Some(Contents()[0])
    {
      if root.None? {
        return None;
      }
      var n := root.value;
      ghost var k: nat := height;
      while n.Branch?
        invariant Shaped(n, k) && Fill(Cfg(), n, 1)
        invariant |Walk(n)| > 0 && Walk(n)[0] == Contents()[0]
        decreases k
      {
        FirstChild(Cfg(), n, k);
        n, k := n.children[0], k - 1;
      }
      return Some(n.items[0]);
    }

    /** Max: the last item, down the rightmost children. */
    method Max() returns (r: Option<T>)
      requires Valid()
      ensures r == if Contents() == [] then None else Some(Last(Contents()))
    {
      if root.None? {
        return None;
      }
      var n := root.value;
      ghost var k: nat := height;
      while n.Branch?
        invariant Shaped(n, k) && Fill(Cfg(), n, 1)
        invariant |Walk(n)| > 0 && Last(Walk(n)) == Last(Contents())
        decreases k
      {
        LastChild(Cfg(), n, k);
        n, k := n.children[|n.children| - 1], k - 1;
      }
      return Some(n.items[|n.items| - 1]);
    }

    /** Scan: offers the items in order to `iter` until it returns false. `shown` is
        the items it was called with, in the order of the calls. */
    method Scan(iter: (seq<T>, T) -> bool) returns (shown: seq<T>)
      requires Valid()
      ensures shown == Visit(iter, [], Contents()).visited
    {
      if root.None? {
        return [];
      }
      var more;
      more, shown := NodeScan(root.value, iter, [], height);
    }

    /** ReverseScan: offers the items in reverse order until `iter` returns false. */
    method ReverseScan(iter: (seq<T>, T) -> bool) returns (shown: seq<T>)
      requires Valid()
      ensures shown == Visit(iter, [], Reverse(Contents())).visited
    {
      if root.None? {
        return [];
      }
      var more;
      more, shown := NodeReverse(root.value, iter, [], height);
    }

    /** Ascend: offers the items not below `pivot`, in order, until `iter` returns
        false. */
    method Ascend(pivot: T, iter: (seq<T>, T) -> bool) returns (shown: seq<T>)
      requires Valid()
      ensures shown == Visit(iter, [], Contents()[LowerBound(less, Contents(), pivot)..]).visited
    {
      if root.None? {
        return [];
      }
      var more;
      more, shown := NodeAscend(less, root.value, pivot, iter, [], height);
    }

    /** Descend: offers the items not above `pivot`, in reverse order, until `iter`
        returns false. */
    method Descend(pivot: T, iter: (seq<T>, T) -> bool) returns (shown: seq<T>)
      requires Valid()
      ensures shown == Visit(iter, [], Reverse(Contents()[..UpperBound(less, Contents(), pivot)])).visited
    {
      if root.None? {
        return [];
      }
      var more;
      more, shown := NodeDescend(less, root.value, pivot, iter, [], height);
    }

    /** Values: all the items in order. */
    method Values() returns (items: seq<T>)
      requires Valid()
      ensures items == Contents()
    {
      items := [];
      if root.Some? {
        items := NodeItems(root.value, items, height);
        EmptyLeft(Contents());
      }
    }

    /** DeleteMin: removes and returns the first item. The descent takes one off the
        count of every node down the leftmost path; when the leaf there holds more
        than `min` items, the item is cut from it and that is all. Otherwise the
        counts are put back and deleteHint removes the item. */
    method DeleteMin() returns (r: Option<T>)
      requires Valid()
      modifies this
      ensures Valid() && isoid == old(isoid)
      ensures old(Contents()) == [] ==> r.None? && Contents() == []
      ensures old(Contents()) != [] ==> r == Some(old(Contents())[0]) && Contents() == old(Contents())[1..]
      ensures root.Some? ==> Owned(root.value, old(root), isoid)
    {
      if root.None? {
        return None;
      }
      var top := root.value;
      var steps, n := Leftmost(top, height);
      AtFill(Cfg(), top, steps, 1);
      FirstOfLeaf(top, steps, n);
      r := DeleteInLeaf(steps, n, 0);
    }

    /** DeleteMax: removes and returns the last item, down the rightmost path, in
        the way of DeleteMin. */
    method DeleteMax() returns (r: Option<T>)
      requires Valid()
      modifies this
      ensures Valid() && isoid == old(isoid)
      ensures old(Contents()) == [] ==> r.None? && Contents() == []
      ensures old(Contents()) != [] ==>
        r == Some(Last(old(Contents()))) && Contents() == old(Contents())[..|old(Contents())| - 1]
      ensures root.Some? ==> Owned(root.value, old(root), isoid)
    {
      if root.None? {
        return None;
      }
      var top := root.value;
      var steps, n := Rightmost(top, height);
      AtFill(Cfg(), top, steps, 1);
      LastOfLeaf(top, steps, n);
      r := DeleteInLeaf(steps, n, |n.items| - 1);
    }

    /** Load: an upsert for items that arrive in order. The descent adds one to the
        count of every node down the rightmost path; when the leaf there has room and
        `item` sorts after its last item, the item is appended and that is all.
        Otherwise the counts are put back and setHint does the upsert. */
    method Load(item: T) returns (prev: Option<T>)
      requires Valid()
      modifies this
      ensures Valid() && isoid == old(isoid)
      ensures prev == Lookup(less, old(Contents()), item)
      ensures Contents() == Upserted(less, old(Contents()), item)
      ensures root.Some? ==> Owned(root.value, old(root), isoid)
    {
      if root.None? {
        prev := SetHint(item, null);
        return;
      }
      var top := root.value;
      var steps, n := Rightmost(top, height);
      AtFill(Cfg(), top, steps, 1);
      if |n.items| < max && less.Lt(n.items[|n.items| - 1], item) {
        AppendLeaf(steps, n, item);
        return None;
      }
      Revert(steps, n, 1);
      ghost var s := root;
      prev := SetHint(item, null);
      RootTrans(root, s, Some(top), isoid);
    }

    /** The fast path of DeleteMin, DeleteMax and DeleteAt: one off the count of every
        node down `steps`, and item `j` cut from the leaf `n` at the end; an emptied
        tree loses its root. */
    method CutLeaf(steps: seq<int>, n: Node<T>, j: int)
      requires Valid() && root.Some? && OnPath(root.value, steps) && n == At(root.value, steps) && n.Leaf?
      requires 0 <= j < |n.items| && |n.items| != min
      modifies this
      ensures Valid() && isoid == old(isoid)
      ensures var W, k := old(Contents()), |Pre(old(root).value, steps)| + j;
        k < |W| && Contents() == W[..k] + W[k + 1..]
      ensures root.Some? ==> Owned(root.value, old(root), isoid)
    {
      ghost var o := root;
      count := count - 1;
      root := CutRoot(Cfg(), root.value, steps, n, j, count, height);
      if root.Some? {
        TagsOwned(root.value, o, isoid);
      }
    }

    /** The fast path of Load: one more on the count of every node down `steps`, and
        `item` appended to the leaf `n` at the end. */
    method AppendLeaf(steps: seq<int>, n: Node<T>, item: T)
      requires Valid() && root.Some? && OnPath(root.value, steps) && n == At(root.value, steps) && n.Leaf?
      requires Post(root.value, steps) == [] && 0 < |n.items| < max && less.Lt(n.items[|n.items| - 1], item)
      modifies this
      ensures Valid() && isoid == old(isoid)
      ensures Contents() == old(Contents()) + [item] == Upserted(less, old(Contents()), item)
      ensures Lookup(less, old(Contents()), item) == None
      ensures root.Some? ==> Owned(root.value, old(root), isoid)
    {
      var r := RootAppend(Cfg(), root.value, steps, n, item, height);
      root, count := Some(r), count + 1;
    }

    /** The fallback of DeleteMin, DeleteMax, DeleteAt and Load: the counts the descent
        changed by `d` down `steps` to `n` are changed back, so only the copies of
        nodes taken into the tree on the way remain. */
    method Revert(steps: seq<int>, n: Node<T>, d: int)
      requires Valid() && root.Some? && OnPath(root.value, steps) && n == At(root.value, steps)
      modifies this
      ensures Valid() && isoid == old(isoid) && Contents() == old(Contents()) && root.Some?
      ensures root.Some? ==> Owned(root.value, old(root), isoid)
    {
      var top := root.value;
      Reverted(Cfg(), top, steps, height, d);
      BumpAlong(Cfg(), top, steps, d, n.items, -d);
      AlongOwned(Cfg(), top, steps, 0, n.items);
      TagsOwned(Along(Cfg(), top, steps, 0, n.items), root, isoid);
      root := Some(Bump(Along(Cfg(), top, steps, d, n.items), steps, -d));
    }

    /** getAt: the item at position `index` in order, found by skipping whole
        subtrees by their counts; none when `index` is out of range. */
    method GetAt(index: int) returns (r: Option<T>)
      requires Valid()
      ensures r == if 0 <= index < |Contents()| then Some(Contents()[index]) else None
    {
      if root.None? || index < 0 || index >= count {
        return None;
      }
      var steps, n, idx, hit := Locate(root.value, index, height);
      return Some(n.items[idx]);
    }

    /** DeleteAt: removes and returns the item at position `index`; none when `index`
        is out of range. The descent by rank takes one off the count of every node
        it passes; when it ends in a leaf holding more than `min` items, the item is
        cut from it and that is all. Otherwise the counts are put back along the
        recorded path and deleteHint removes the item, guided by that path. */
    method DeleteAt(index: int) returns (r: Option<T>)
      requires Valid()
      modifies this
      ensures Valid() && isoid == old(isoid)
      ensures !(0 <= index < |old(Contents())|) ==> r.None? && Contents() == old(Contents())
      ensures 0 <= index < |old(Contents())| ==>
        r == Some(old(Contents())[index]) &&
        Contents() == old(Contents())[..index] + old(Contents())[index + 1..]
      ensures root.Some? ==> Owned(root.value, old(root), isoid)
    {
      if root.None? || index < 0 || index >= count {
        if root.Some? {
          OwnedSelf(root.value, isoid);
        }
        return None;
      }
      var top := root.value;
      var steps, n, idx, hit := Locate(top, index, height);
      var item := n.items[idx];
      if !hit && |n.items| != min {
        CutLeaf(steps, n, idx);
        return Some(item);
      }
      var path := steps + [idx];
      var hint := RecordPath(path);
      r := RevertDelete(steps, n, index, item, hint);
    }

    /** What DeleteMin and DeleteMax do once the descent has reached the leaf `n`:
        item `j` of the leaf is cut from it when the leaf holds more than `min`
        items, and removed by deleteHint otherwise. */
    method DeleteInLeaf(steps: seq<int>, n: Node<T>, j: int) returns (r: Option<T>)
      requires Valid() && root.Some? && OnPath(root.value, steps) && n == At(root.value, steps) && n.Leaf?
      requires 0 <= j < |n.items|
      modifies this
      ensures Valid() && isoid == old(isoid)
      ensures var W, k := old(Contents()), |Pre(old(root).value, steps)| + j;
        k < |W| && r == Some(W[k]) && Contents() == W[..k] + W[k + 1..]
      ensures root.Some? ==> Owned(root.value, old(root), isoid)
    {
      ghost var k := |Pre(root.value, steps)| + j;
      var item := n.items[j];
      LeafItem(root.value, steps, j);
      if |n.items| != min {
        CutLeaf(steps, n, j);
        return Some(item);
      }
      r := RevertDelete(steps, n, k, item, null);
    }

    /** The slow path of DeleteMin, DeleteMax and DeleteAt: the counts the descent
        took off down `steps` are put back, and deleteHint removes `item`, item `k`
        of the tree, guided by `hint`. */
    method RevertDelete(steps: seq<int>, n: Node<T>, ghost k: int, item: T, hint: PathHint?) returns (r: Option<T>)
      requires Valid() && root.Some? && OnPath(root.value, steps) && n == At(root.value, steps)
      requires 0 <= k < |Contents()| && item == Contents()[k] && (hint != null ==> hint.Valid())
      modifies this, HintFrame(hint)
      ensures Valid() && isoid == old(isoid)
      ensures r == Some(old(Contents())[k]) && Contents() == old(Contents())[..k] + old(Contents())[k + 1..]
      ensures root.Some? ==> Owned(root.value, old(root), isoid)
    {
      ghost var W := Contents();
      Revert(steps, n, -1);
      ghost var s := root;
      RemovedIndex(less, W, k);
      r := DeleteHint(item, hint);
      RootTrans(root, s, old(root), isoid);
    }

    /** Height: the number of levels, zero for an empty tree. */
    method Height() returns (r: int)
      requires Valid()
      ensures r == if root.None? then 0 else height + 1
    {
      r := 0;
      if root.Some? {
        var n := root.value;
        ghost var k: nat := height;
        while true
          invariant Shaped(n, k) && r + k == height
          decreases k
        {
          r := r + 1;
          if n.Leaf? {
            break;
          }
          n, k := n.children[0], k - 1;
        }
      }
    }

    /** IsoCopy: both trees take a fresh isoid and share every node, so each copies
        a node before it changes it. */
    method IsoCopy(ids: IsoIds) returns (tr2: BTree<T>)
      requires Valid() && isoid <= ids.last
      modifies this, ids
      ensures fresh(tr2) && Valid() && tr2.Valid()
      ensures root == old(root) && tr2.root == root
      ensures root.Some? ==> TagsBelow(root.value, isoid) && TagsBelow(root.value, tr2.isoid)
      ensures Contents() == old(Contents()) && tr2.Contents() == Contents() && tr2.count == count
      ensures old(ids.last) < isoid < tr2.isoid == ids.last
      ensures tr2.min == min && tr2.max == max && tr2.less == less
    {
      var a := ids.Next();
      if root.Some? {
        Rekeyed(Cfg(), a, root.value, 1);
        TagsRaised(root.value, isoid + 1, a);
        TagsRaised(root.value, a, a + 1);
      }
      isoid := a;
      var b := ids.Next();
      tr2 := new BTree.Clone(this, b);
    }

    /** Clear: every item is dropped. */
    method Clear()
      requires Valid()
      modifies this
      ensures Valid() && Contents() == [] && isoid == old(isoid)
    {
      root, count := None, 0;
    }
  }

  /** Copies are isolated: after IsoCopy, an upsert into the copy and a delete from
      the original each change only the tree they are applied to. The ids come from
      the counter `ids` that gave `tr` its own. Every node the two trees share
      carries a tag below both of their isoids, so neither tree writes to it; each
      tree's final root holds only nodes of the shared root, untouched, and nodes
      tagged with its own isoid, which the other tree never holds. */
  method CopiesAreIsolated<T>(tr: BTree<T>, ids: IsoIds, x: T, y: T) returns (copy: BTree<T>)
    requires tr.Valid() && tr.isoid <= ids.last
    modifies tr, ids
    ensures fresh(copy) && tr.Valid() && copy.Valid()
    ensures copy.Contents() == Upserted(tr.less, old(tr.Contents()), x)
    ensures tr.Contents() == Removed(tr.less, old(tr.Contents()), y)
    ensures old(tr.isoid) < tr.isoid < copy.isoid
    ensures old(tr.root).Some? ==>
      TagsBelow(old(tr.root).value, tr.isoid) && TagsBelow(old(tr.root).value, copy.isoid)
    ensures copy.root.Some? ==> Owned(copy.root.value, old(tr.root), copy.isoid)
    ensures tr.root.Some? ==> Owned(tr.root.value, old(tr.root), tr.isoid)
  {
    copy := tr.IsoCopy(ids);
    var replaced := copy.Upsert(x);
    var deleted := tr.Delete(y);
  }

  // ---------------------------------------------------------------------------
  // Facts the tree operations rely on

  /** The lower bound on a node's item count matters only as far as the node meets it. */
  lemma Refill<T>(cfg: Config<T>, n: Node<T>, lo: int, lo2: int)
    requires Fill(cfg, n, lo) && lo2 <= |n.items|
    ensures Fill(cfg, n, lo2)
  {
  }

  /** The isoid of a tree plays no part in how well filled its nodes are. */
  lemma {:induction false} Rekeyed<T>(cfg: Config<T>, id: nat, n: Node<T>, lo: int)
    requires Fill(cfg, n, lo)
    ensures Fill(cfg.(isoid := id), n, lo)
    decreases n
  {
    if n.Branch? {
      forall i | 0 <= i < |n.children| ensures Fill(cfg.(isoid := id), n.children[i], cfg.min) {
        Rekeyed(cfg, id, n.children[i], cfg.min);
      }
    }
  }

  /** Ownership over two root changes: `f` built from `s`, itself built from the
      root `o`, is built from `o`. */
  lemma RootTrans<T>(f: Option<Node<T>>, s: Option<Node<T>>, o: Option<Node<T>>, id: nat)
    requires s.Some? && Owned(s.value, o, id) && (f.Some? ==> Owned(f.value, s, id))
    ensures f.Some? ==> Owned(f.value, o, id)
  {
    if f.Some? {
      OwnedTrans(f.value, s.value, o, id);
    }
  }

  /** The new root of a root split, a node of the tree over the two halves of the
      old root, is built from the old root. */
  lemma HalvesOwned<T>(cfg: Config<T>, o: Node<T>, n: Node<T>, left: Node<T>, right: Node<T>, top: Node<T>)
    requires n == IsoLoad(cfg, o, true)
    requires Owned(left, Some(n), cfg.isoid) && Owned(right, Some(n), cfg.isoid)
    requires top.isoid == cfg.isoid && top.Branch? && top.children == [left, right]
    ensures Owned(top, Some(o), cfg.isoid)
  {
    LoadOwned(cfg, o);
    OwnedTrans(left, n, Some(o), cfg.isoid);
    OwnedTrans(right, n, Some(o), cfg.isoid);
    OwnedNode(top, Some(o), cfg.isoid);
  }

  /** The new root over the two halves of a split root is well shaped and well
      filled one level higher, and holds the halves' contents around the median. */
  lemma NewRoot<T>(cfg: Config<T>, h: nat, left: Node<T>, median: T, right: Node<T>, top: Node<T>)
    requires ValidConfig(cfg)
    requires Shaped(left, h) && Shaped(right, h) && Fill(cfg, left, cfg.min) && Fill(cfg, right, cfg.min)
    requires top.Branch? && top.items == [median] && top.children == [left, right]
    requires top.count == 1 + SumCounts([left, right])
    ensures Shaped(top, h + 1) && Fill(cfg, top, 1)
    ensures Walk(top) == Walk(left) + [median] + Walk(right)
  {
    NewRootWalk(left, median, right, top);
    var cs := top.children;
    assert forall i :: 0 <= i < |cs| ==> cs[i] == left || cs[i] == right;
    CountIsSize(top);
  }

  lemma NewRootWalk<T>(left: Node<T>, median: T, right: Node<T>, top: Node<T>)
    requires top.Branch? && top.items == [median] && top.children == [left, right]
    ensures Walk(top) == Walk(left) + [median] + Walk(right)
  {
    var xs: seq<T>, ws: seq<seq<T>> := [], [Walk(left) + [median] + Walk(right)];
    assert Walks(top.children) == [Walk(left), Walk(right)];
    FlatInsertSplit(xs, ws, 0, Walk(left), median, Walk(right));
    assert xs[..0] + [median] + xs[0..] == [median];
    assert ws[..0] + [Walk(left), Walk(right)] + ws[1..] == [Walk(left), Walk(right)];
    assert Flat(xs, ws) == ws[0] by {
      assert ws[..0] == [] && xs == [];
    }
  }

  /** A search that misses the items of a branch finds what the child where it
      leads finds. */
  lemma LookupBelow<T>(o: Order<T>, n: Node<T>, i: nat, key: T)
    requires n.Branch? && |n.children| == |n.items| + 1 && Ascending(o, Walk(n)) && Ascending(o, n.items)
    requires i == LowerBound(o, n.items, key) && !Holds(o, n.items, key)
    ensures Ascending(o, Walk(n.children[i]))
    ensures Lookup(o, Walk(n), key) == Lookup(o, Walk(n.children[i]), key)
  {
    var ws := Walks(n.children);
    Straddles(o, n, i, key);
    BranchAround(n, i, n.children[i]);
    RemovedInside(o, Before(n.items, ws, i), ws[i], After(n.items, ws, i), key);
  }

  /** A tree's root under its bounds: none exactly when the tree is empty, and
      otherwise a well-formed root `height` levels above its leaves, whose cached
      count is the tree's and whose tags are all at most the tree's isoid. */
  ghost predicate Rooted<T>(cfg: Config<T>, root: Option<Node<T>>, count: int, height: nat)
  {
    ValidConfig(cfg) &&
    (root.None? <==> count == 0) &&
    (root.Some? ==> Wf(cfg, root.value, height, 1) && root.value.count == count) &&
    (root.Some? ==> TagsBelow(root.value, cfg.isoid + 1))
  }

  /** The items under a root, in order. */
  ghost function Items<T>(root: Option<Node<T>>): seq<T>
  {
    if root.None? then [] else Walk(root.value)
  }

  /** The root's set under the tree's bounds: the new root is well formed, keeps
      every tag below the tree's next isoid, and is built from the old root. */
  method RootSet<T>(cfg: Config<T>, o: Node<T>, item: T, hint: PathHint?, ghost h: nat)
    returns (r: Node<T>, prev: Option<T>, split: bool)
    requires ValidConfig(cfg) && Wf(cfg, o, h, 1) && TagsBelow(o, cfg.isoid + 1)
    requires hint != null ==> hint.Valid()
    modifies HintFrame(hint)
    ensures Wf(cfg, r, h, 1) && TagsBelow(r, cfg.isoid + 1)
    ensures split == FullPath(cfg, o, item)
    ensures split ==> prev == None && Walk(r) == Walk(o) && r.count == o.count && |r.items| == cfg.max
    ensures !split ==> prev == Lookup(cfg.less, Walk(o), item)
    ensures !split ==> Walk(r) == Upserted(cfg.less, Walk(o), item)
    ensures r.count == o.count + (if split || prev.Some? then 0 else 1)
    ensures Owned(r, Some(o), cfg.isoid)
  {
    r, prev, split := NodeSet(cfg, o, item, hint, 0, h, 1);
    TagsOwned(r, Some(o), cfg.isoid);
  }

  /** The root's delete under the tree's bounds, followed by the shrinking of a
      root that was left without items. */
  method RootDelete<T>(cfg: Config<T>, o: Node<T>, key: T, hint: PathHint?, ghost h: nat)
    returns (top: Option<Node<T>>, ghost h2: nat, prev: Option<T>)
    requires Rooted(cfg, Some(o), o.count, h)
    requires hint != null ==> hint.Valid()
    modifies HintFrame(hint)
    ensures prev == Lookup(cfg.less, Walk(o), key)
    ensures Items(top) == Removed(cfg.less, Walk(o), key)
    ensures Rooted(cfg, top, o.count - (if prev.Some? then 1 else 0), h2)
    ensures top.Some? ==> Owned(top.value, Some(o), cfg.isoid)
  {
    var r;
    r, prev := BTreeDelete.Delete(cfg, o, false, key, hint, 0, h, 1);
    TagsOwned(r, Some(o), cfg.isoid);
    if prev.None? {
      top, h2 := Some(r), h;
      return;
    }
    top, h2 := ShrinkRoot(cfg, r, o.count - 1, h);
    if top.Some? {
      OwnedTrans(top.value, r, Some(o), cfg.isoid);
      TagsOwned(top.value, Some(o), cfg.isoid);
    }
  }

  /** The fast path of Load under the tree's bounds: `item` appended to the last
      leaf, at the end of `steps`, and one more on the count of every node down
      the path. */
  method RootAppend<T>(cfg: Config<T>, top: Node<T>, steps: seq<int>, n: Node<T>, item: T, ghost h: nat)
    returns (r: Node<T>)
    requires Rooted(cfg, Some(top), top.count, h) && OnPath(top, steps) && n == At(top, steps) && n.Leaf?
    requires Post(top, steps) == [] && 0 < |n.items| < cfg.max && cfg.less.Lt(n.items[|n.items| - 1], item)
    ensures Rooted(cfg, Some(r), top.count + 1, h)
    ensures Walk(r) == Walk(top) + [item] == Upserted(cfg.less, Walk(top), item)
    ensures Lookup(cfg.less, Walk(top), item) == None
    ensures Owned(r, Some(top), cfg.isoid)
  {
    LeafAppend(cfg, top, steps, h, item);
    r := Along(cfg, top, steps, 1, n.items + [item]);
    AlongOwned(cfg, top, steps, 1, n.items + [item]);
    TagsOwned(r, Some(top), cfg.isoid);
  }

  /** The new root of a root split: the full root `o` split in two halves under a
      new root that holds the median, one level higher, with the same contents. */
  method SplitTop<T>(cfg: Config<T>, o: Node<T>, ghost h: nat) returns (top: Node<T>)
    requires ValidConfig(cfg) && Wf(cfg, o, h, 1) && |o.items| == cfg.max
    ensures Wf(cfg, top, h + 1, 1) && Walk(top) == Walk(o) && top.count == o.count
    ensures |top.items| == 1 && Owned(top, Some(o), cfg.isoid)
  {
    var n := IsoLoad(cfg, o, true);
    Refill(cfg, n, 1, 0);
    var left, right, median := NodeSplit(cfg, n, h);
    top := UpdateCount(Branch(cfg.isoid, 0, [median], [left, right]));
    NewRoot(cfg, h, left, median, right, top);
    HalvesOwned(cfg, o, n, left, right, top);
  }

  /** The root after the fast path of DeleteMin, DeleteMax and DeleteAt: the copies
      down `steps` with one off their counts and item `j` cut from the leaf, or no
      root once `count`, the tree's count after the cut, is zero. */
  method CutRoot<T>(cfg: Config<T>, top: Node<T>, steps: seq<int>, n: Node<T>, j: int, count: int, ghost h: nat)
    returns (r: Option<Node<T>>)
    requires ValidConfig(cfg) && Wf(cfg, top, h, 1) && OnPath(top, steps) && n == At(top, steps) && n.Leaf?
    requires 0 <= j < |n.items| && |n.items| != cfg.min
    requires count == top.count - 1
    ensures |Pre(top, steps)| + j < |Walk(top)|
    ensures r.None? <==> count == 0
    ensures var W, k := Walk(top), |Pre(top, steps)| + j;
      r.Some? ==> Wf(cfg, r.value, h, 1) && Walk(r.value) == W[..k] + W[k + 1..] && r.value.count == count
    ensures r.Some? ==> Owned(r.value, Some(top), cfg.isoid)
  {
    ghost var W, k := Walk(top), |Pre(top, steps)| + j;
    assert k < |W| by {
      LeafAt(top, steps, j);
    }
    if count == 0 {
      return None;
    }
    r := Some(Along(cfg, top, steps, -1, n.items[..j] + n.items[j + 1..]));
    LeafCut(cfg, top, steps, h, j);
    AlongOwned(cfg, top, steps, -1, n.items[..j] + n.items[j + 1..]);
  }

  /** The end of deleteHint: a branch root left without items gives way to its only
      child, and a tree whose count drops to zero loses its root. */
  method ShrinkRoot<T>(cfg: Config<T>, r: Node<T>, count: int, ghost h: nat) returns (top: Option<Node<T>>, ghost h2: nat)
    requires ValidConfig(cfg) && Shaped(r, h) && Fill(cfg, r, 0) && Ascending(cfg.less, Walk(r))
    requires count == |Walk(r)|
    ensures top.None? <==> count == 0
    ensures top.Some? ==> Wf(cfg, top.value, h2, 1) && Walk(top.value) == Walk(r) && top.value.count == count
    ensures top.Some? ==> Owned(top.value, Some(r), cfg.isoid)
  {
    top, h2 := Some(r), h;
    OwnedSelf(r, cfg.isoid);
    if |r.items| == 0 && r.Branch? {
      Collapse(cfg, r, h);
      KidsWithin(r, cfg.isoid);
      top, h2 := Some(r.children[0]), h - 1;
    } else if |r.items| > 0 {
      Refill(cfg, r, 0, 1);
    }
    if count == 0 {
      top := None;
    }
  }

  /** A root branch left without items holds exactly its one child's contents. */
  lemma Collapse<T>(cfg: Config<T>, r: Node<T>, h: nat)
    requires ValidConfig(cfg) && r.Branch? && |r.items| == 0
    requires Shaped(r, h) && Fill(cfg, r, 0) && Ascending(cfg.less, Walk(r))
    ensures h >= 1 && Wf(cfg, r.children[0], h - 1, 1) && Walk(r.children[0]) == Walk(r)
  {
    var ws := Walks(r.children);
    assert Walk(r) == ws[0];
    Refill(cfg, r.children[0], cfg.min, 1);
  }

  /** The contents of a branch start with those of its first child. */
  lemma FirstChild<T>(cfg: Config<T>, n: Node<T>, h: nat)
    requires ValidConfig(cfg) && n.Branch? && Shaped(n, h) && Fill(cfg, n, 1)
    ensures h >= 1 && Shaped(n.children[0], h - 1) && Fill(cfg, n.children[0], 1)
    ensures |Walk(n.children[0])| > 0 && Walk(n)[0] == Walk(n.children[0])[0]
  {
    var c := n.children[0];
    Refill(cfg, c, cfg.min, 1);
    WalkCovers(c, h - 1);
    BranchAround(n, 0, c);
    Ends(n.items, Walks(n.children));
  }

  /** The contents of a branch end with those of its last child. */
  lemma LastChild<T>(cfg: Config<T>, n: Node<T>, h: nat)
    requires ValidConfig(cfg) && n.Branch? && Shaped(n, h) && Fill(cfg, n, 1)
    ensures var c := n.children[|n.children| - 1];
      h >= 1 && Shaped(c, h - 1) && Fill(cfg, c, 1) &&
      |Walk(c)| > 0 && |Walk(n)| > 0 && Last(Walk(n)) == Last(Walk(c))
  {
    var k := |n.children| - 1;
    var c := n.children[k];
    Refill(cfg, c, cfg.min, 1);
    WalkCovers(c, h - 1);
    BranchAround(n, k, c);
    Ends(n.items, Walks(n.children));
  }

  /** The descent of DeleteMin: down the first child of every branch to the
      leftmost leaf, nothing before it. */
  method Leftmost<T>(top: Node<T>, ghost h: nat) returns (steps: seq<int>, n: Node<T>)
    requires Shaped(top, h)
    ensures OnPath(top, steps) && n == At(top, steps) && n.Leaf? && Pre(top, steps) == []
  {
    steps, n := [], top;
    ghost var k: nat := h;
    while n.Branch?
      invariant Leftward(top, steps, n, k)
      decreases k
    {
      StepLeft(top, steps, n, k);
      steps, n, k := steps + [0], n.children[0], k - 1;
    }
  }

  /** The descent of DeleteMax and Load: down the last child of every branch to the
      rightmost leaf, nothing after it. */
  method Rightmost<T>(top: Node<T>, ghost h: nat) returns (steps: seq<int>, n: Node<T>)
    requires Shaped(top, h)
    ensures OnPath(top, steps) && n == At(top, steps) && n.Leaf? && Post(top, steps) == []
  {
    steps, n := [], top;
    ghost var k: nat := h;
    while n.Branch?
      invariant Rightward(top, steps, n, k)
      decreases k
    {
      var i := |n.children| - 1;
      StepRight(top, steps, n, k, i);
      steps, n, k := steps + [i], n.children[i], k - 1;
    }
  }

  /** The hint DeleteAt passes to deleteHint: the first eight positions of `path`,
      each cut to a byte. */
  method RecordPath(path: seq<int>) returns (hint: PathHint)
    ensures fresh(hint) && fresh(hint.used) && fresh(hint.path) && hint.Valid()
    ensures forall i :: 0 <= i < 8 ==> hint.used[i] == (i < |path|)
    ensures forall i :: 0 <= i < 8 && i < |path| ==> hint.path[i] == ToUint8(path[i])
  {
    hint := new PathHint();
    for i := 0 to |path|
      invariant forall j :: 0 <= j < 8 ==> hint.used[j] == (j < i && j < |path|)
      invariant forall j :: 0 <= j < 8 && j < i && j < |path| ==> hint.path[j] == ToUint8(path[j])
    {
      if i < 8 {
        hint.path[i] := ToUint8(path[i]);
        hint.used[i] := true;
      }
    }
  }

  /** The descent down the leftmost path is at `n`, `k` levels above the leaves,
      with nothing before it. */
  ghost predicate Leftward<T>(top: Node<T>, p: seq<int>, n: Node<T>, k: nat) {
    OnPath(top, p) && n == At(top, p) && Pre(top, p) == [] && Shaped(n, k)
  }

  /** The descent down the rightmost path is at `n`, `k` levels above the leaves,
      with nothing after it. */
  ghost predicate Rightward<T>(top: Node<T>, p: seq<int>, n: Node<T>, k: nat) {
    OnPath(top, p) && n == At(top, p) && Post(top, p) == [] && Shaped(n, k)
  }

  /** One step down the leftmost path. */
  lemma StepLeft<T>(top: Node<T>, p: seq<int>, n: Node<T>, k: nat)
    requires Leftward(top, p, n, k) && n.Branch?
    ensures k >= 1 && Leftward(top, p + [0], n.children[0], k - 1)
  {
    DeeperAt(top, p, 0);
    DeeperPre(top, p, 0);
    Ends(n.items, Walks(n.children));
    DescendShaped(n, k, 0);
  }

  /** One step down the rightmost path. */
  lemma StepRight<T>(top: Node<T>, p: seq<int>, n: Node<T>, k: nat, i: int)
    requires Rightward(top, p, n, k) && n.Branch? && i == |n.children| - 1
    ensures k >= 1 && Rightward(top, p + [i], n.children[i], k - 1)
  {
    DeeperAt(top, p, i);
    DeeperPost(top, p, i);
    Ends(n.items, Walks(n.children));
    DescendShaped(n, k, i);
  }

  /** The first item of the leftmost leaf is the first of the tree. */
  lemma FirstOfLeaf<T>(top: Node<T>, p: seq<int>, n: Node<T>)
    requires OnPath(top, p) && n == At(top, p) && n.Leaf? && Pre(top, p) == [] && |n.items| > 0
    ensures var W := Walk(top); |W| > 0 && W[0] == n.items[0] && |Pre(top, p)| + 0 == 0
    ensures var W := Walk(top); W[..0] + W[0 + 1..] == W[1..]
  {
    LeafAt(top, p, 0);
  }

  /** The last item of the rightmost leaf is the last of the tree. */
  lemma LastOfLeaf<T>(top: Node<T>, p: seq<int>, n: Node<T>)
    requires OnPath(top, p) && n == At(top, p) && n.Leaf? && Post(top, p) == [] && |n.items| > 0
    ensures var W, j := Walk(top), |n.items| - 1;
      |W| > 0 && |Pre(top, p)| + j == |W| - 1 && W[|W| - 1] == n.items[j] && Last(W) == n.items[j]
    ensures var W := Walk(top); |W| > 0 && W[..|W| - 1] + W[|W| - 1 + 1..] == W[..|W| - 1]
    ensures Walk(top) == Pre(top, p) + n.items
  {
    LeafAt(top, p, |n.items| - 1);
  }

  /** Where item `j` of the leaf at the end of a path stands in the tree. */
  lemma LeafAt<T>(top: Node<T>, p: seq<int>, j: nat)
    requires OnPath(top, p) && At(top, p).Leaf? && j < |At(top, p).items|
    ensures var W, L := Walk(top), At(top, p);
      W == Pre(top, p) + L.items + Post(top, p) && |Pre(top, p)| + j < |W| && W[|Pre(top, p)| + j] == L.items[j]
  {
    var L := At(top, p);
    Frame(top, p);
    Middle(Pre(top, p), L.items, Post(top, p), j);
  }

  /** Item `j` of the leaf at the end of `p` is item `|Pre(top, p)| + j` of the tree. */
  lemma LeafItem<T>(top: Node<T>, p: seq<int>, j: nat)
    requires OnPath(top, p) && At(top, p).Leaf? && j < |At(top, p).items|
    ensures |Pre(top, p)| + j < |Walk(top)| && Walk(top)[|Pre(top, p)| + j] == At(top, p).items[j]
  {
    LeafAt(top, p, j);
  }

  /** The fast path of DeleteMin, DeleteMax and DeleteAt: cutting item `j` from the
      leaf at the end of a path, with one off every count along it, removes exactly
      that item from the contents, provided the leaf keeps enough items. */
  lemma LeafCut<T>(cfg: Config<T>, top: Node<T>, p: seq<int>, h: nat, j: nat)
    requires ValidConfig(cfg) && Wf(cfg, top, h, 1) && OnPath(top, p) && At(top, p).Leaf?
    requires j < |At(top, p).items| && |At(top, p).items| != cfg.min && |Walk(top)| > 1
    ensures var L := At(top, p); var r := Along(cfg, top, p, -1, L.items[..j] + L.items[j + 1..]);
      var k := |Pre(top, p)| + j;
      k < |Walk(top)| && Wf(cfg, r, h, 1) && Walk(r) == Walk(top)[..k] + Walk(top)[k + 1..]
  {
    var L := At(top, p);
    var P, Q, W := Pre(top, p), Post(top, p), Walk(top);
    var items := L.items[..j] + L.items[j + 1..];
    var k := |P| + j;
    assert W == P + L.items + Q && k < |W| by {
      LeafAt(top, p, j);
    }
    assert P + items + Q == W[..k] + W[k + 1..] by {
      CutInside(P, L.items, Q, j);
    }
    assert Ascending(cfg.less, P + items + Q) by {
      RemovedIndex(cfg.less, W, k);
    }
    assert (if p == [] then 1 else cfg.min) <= |items| <= cfg.max by {
      AtFill(cfg, top, p, 1);
    }
    var r := Along(cfg, top, p, -1, items);
    assert Wf(cfg, r, h, 1) && Walk(r) == P + items + Q by {
      LeafEdited(cfg, top, p, h, -1, items);
    }
  }

  /** The fast path of Load: appending an item that sorts after the last one, in the
      last leaf, with one more on every count along the path, is the upsert. */
  lemma LeafAppend<T>(cfg: Config<T>, top: Node<T>, p: seq<int>, h: nat, item: T)
    requires ValidConfig(cfg) && Wf(cfg, top, h, 1) && OnPath(top, p) && At(top, p).Leaf?
    requires Post(top, p) == [] && 0 < |At(top, p).items| < cfg.max
    requires cfg.less.Lt(At(top, p).items[|At(top, p).items| - 1], item)
    ensures var r := Along(cfg, top, p, 1, At(top, p).items + [item]);
      Wf(cfg, r, h, 1) && Walk(r) == Walk(top) + [item] &&
      Upserted(cfg.less, Walk(top), item) == Walk(top) + [item] && Lookup(cfg.less, Walk(top), item) == None
  {
    var L := At(top, p);
    var P, W, items := Pre(top, p), Walk(top), L.items + [item];
    assert W == P + L.items && W[|W| - 1] == L.items[|L.items| - 1] by {
      LastOfLeaf(top, p, L);
    }
    assert Upserted(cfg.less, W, item) == W + [item] && Lookup(cfg.less, W, item) == None by {
      UpsertedLast(cfg.less, W, item);
    }
    assert P + items + Post(top, p) == W + [item] by {
      AppendAssoc(P, L.items, item);
    }
    assert (if p == [] then 1 else cfg.min) <= |items| by {
      AtFill(cfg, top, p, 1);
    }
    var r := Along(cfg, top, p, 1, items);
    assert Wf(cfg, r, h, 1) && Walk(r) == P + items + Post(top, p) by {
      LeafEdited(cfg, top, p, h, 1, items);
    }
  }

  lemma AppendAssoc<T>(P: seq<T>, L: seq<T>, x: T)
    ensures P + (L + [x]) + [] == (P + L) + [x]
  {
  }
}
