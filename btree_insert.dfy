/** Insertion into a B-tree: `updateCount`, `nodeSplit` and `nodeSet`
    (btree/btree.go:240-270, 304-351). */
module BTreeInsert {
  import opened Ordering
  import opened BTreeNodes
  import opened BTreeSearch

  // ---------------------------------------------------------------------------
  // Counts

  lemma {:induction false} SumCountsLens<T>(cs: seq<Node<T>>)
    requires forall i :: 0 <= i < |cs| ==> cs[i].count == |Walk(cs[i])|
    ensures SumCounts(cs) == SumLens(Walks(cs))
    decreases |cs|
  {
    if cs != [] {
      var k := |cs| - 1;
      assert Walks(cs)[..k] == Walks(cs[..k]);
      SumCountsLens(cs[..k]);
    }
  }

  /** The number of items a subtree holds is its own items plus its children's counts. */
  lemma CountIsSize<T>(n: Node<T>)
    requires n.Leaf? || |n.children| == |n.items| + 1
    requires n.Branch? ==> forall i :: 0 <= i < |n.children| ==> n.children[i].count == |Walk(n.children[i])|
    ensures |Walk(n)| == |n.items| + (if n.Branch? then SumCounts(n.children) else 0)
  {
    if n.Branch? {
      FlatLen(n.items, Walks(n.children));
      SumCountsLens(n.children);
    }
  }

  /** updateCount: recomputes the cached count from the node's items and its
      children's counts; when the children's counts are right, so is the node's. */
  method UpdateCount<T>(n: Node<T>) returns (r: Node<T>)
    ensures r == n.(count := r.count)
    ensures r.count == |n.items| + (if n.Branch? then SumCounts(n.children) else 0)
    ensures (n.Leaf? || |n.children| == |n.items| + 1) &&
            (n.Branch? ==> forall i :: 0 <= i < |n.children| ==> n.children[i].count == |Walk(n.children[i])|)
            ==> r.count == |Walk(r)|
  {
    var count := |n.items|;
    if n.Branch? {
      var i := 0;
      while i < |n.children|
        invariant 0 <= i <= |n.children|
        invariant count == |n.items| + SumCounts(n.children[..i])
      {
        assert n.children[..i + 1][..i] == n.children[..i];
        count := count + n.children[i].count;
        i := i + 1;
      }
      assert n.children[..|n.children|] == n.children;
    }
    r := n.(count := count);
    if (n.Leaf? || |n.children| == |n.items| + 1) &&
       (n.Branch? ==> forall i :: 0 <= i < |n.children| ==> n.children[i].count == |Walk(n.children[i])|) {
      CountIsSize(n);
    }
  }

  // ---------------------------------------------------------------------------
  // Splitting a full node

  /** A branch whose child `i` is replaced by two nodes and the item between them
      keeps its contents when that child held exactly those. */
  lemma FlatInsertSplit<T>(xs: seq<T>, ws: seq<seq<T>>, i: nat, wl: seq<T>, m: T, wr: seq<T>)
    requires |ws| == |xs| + 1 && i <= |xs| && ws[i] == wl + [m] + wr
    ensures Flat(xs[..i] + [m] + xs[i..], ws[..i] + [wl, wr] + ws[i + 1..]) == Flat(xs, ws)
  {
    var xs2, ws2 := xs[..i] + [m] + xs[i..], ws[..i] + [wl, wr] + ws[i + 1..];
    var B, A := Before(xs, ws, i), After(xs, ws, i);
    assert Flat(xs, ws) == B + (wl + [m] + wr) + A by {
      Around(xs, ws, i);
    }
    assert Flat(xs2, ws2) == B + wl + [m] + wr + A by {
      Around(xs2, ws2, i + 1);
      assert ws2[i + 1] == wr;
      InsertSplitBefore(xs, ws, i, wl, m, wr);
      InsertSplitAfter(xs, ws, i, wl, m, wr);
    }
  }

  lemma InsertSplitBefore<T>(xs: seq<T>, ws: seq<seq<T>>, i: nat, wl: seq<T>, m: T, wr: seq<T>)
    requires |ws| == |xs| + 1 && i <= |xs|
    ensures var xs2, ws2 := xs[..i] + [m] + xs[i..], ws[..i] + [wl, wr] + ws[i + 1..];
      Before(xs2, ws2, i + 1) == Before(xs, ws, i) + wl + [m]
  {
    var xs2, ws2 := xs[..i] + [m] + xs[i..], ws[..i] + [wl, wr] + ws[i + 1..];
    var a, b := ws2[..i + 1], xs2[..i + 1];
    assert a[..i] == ws[..i] && b[..i] == xs[..i];
    assert a[i] == wl && b[i] == m;
  }

  lemma InsertSplitAfter<T>(xs: seq<T>, ws: seq<seq<T>>, i: nat, wl: seq<T>, m: T, wr: seq<T>)
    requires |ws| == |xs| + 1 && i <= |xs|
    ensures var xs2, ws2 := xs[..i] + [m] + xs[i..], ws[..i] + [wl, wr] + ws[i + 1..];
      After(xs2, ws2, i + 1) == After(xs, ws, i)
  {
    var xs2, ws2 := xs[..i] + [m] + xs[i..], ws[..i] + [wl, wr] + ws[i + 1..];
    if i < |xs| {
      assert xs2[i + 1] == xs[i];
      assert xs2[i + 2..] == xs[i + 1..] && ws2[i + 2..] == ws[i + 1..];
    }
  }

  /** The two halves of a node split around item `i`. */
  lemma SplitWalk<T>(n: Node<T>, i: nat, l: Node<T>, r: Node<T>)
    requires n.Branch? && |n.children| == |n.items| + 1 && i < |n.items|
    requires l.Branch? && l.items == n.items[..i] && l.children == n.children[..i + 1]
    requires r.Branch? && r.items == n.items[i + 1..] && r.children == n.children[i + 1..]
    ensures Walk(l) + [n.items[i]] + Walk(r) == Walk(n)
    ensures l.children + r.children == n.children
  {
    assert n.children == n.children[..i + 1] + n.children[i + 1..];
    var ws := Walks(n.children);
    assert Flat(n.items, ws) == Flat(n.items[..i], ws[..i + 1]) + [n.items[i]] + Flat(n.items[i + 1..], ws[i + 1..]) by {
      FlatSplit(n.items, ws, i);
    }
    WalksTake(n.children, i + 1);
    WalksDrop(n.children, i + 1);
  }

  /** `left`, `median` and `right` are `n` cut around its middle item `items[max/2]`:
      `min` items on each side, the children shared out between the halves, the left
      half keeping the node's isoid and the right half taking the tree's. */
  ghost predicate SplitHalves<T>(cfg: Config<T>, n: Node<T>, left: Node<T>, median: T, right: Node<T>) {
    ValidConfig(cfg) && |n.items| == cfg.max && median == n.items[cfg.max / 2] &&
    left.items + [median] + right.items == n.items &&
    |left.items| == cfg.min && |right.items| == cfg.min &&
    left.Leaf? == n.Leaf? && right.Leaf? == n.Leaf? &&
    (n.Branch? ==> left.children + right.children == n.children && |left.children| == cfg.min + 1) &&
    left.isoid == n.isoid && right.isoid == cfg.isoid
  }

  /** nodeSplit: splits a full node around its middle item; both halves are well
      formed, they hold the node's contents around the median, and they are well
      filled when the node was. */
  method NodeSplit<T>(cfg: Config<T>, n: Node<T>, ghost h: nat) returns (left: Node<T>, right: Node<T>, median: T)
    requires ValidConfig(cfg) && Shaped(n, h) && |n.items| == cfg.max
    ensures SplitHalves(cfg, n, left, median, right)
    ensures Shaped(left, h) && Shaped(right, h) && Walk(left) + [median] + Walk(right) == Walk(n)
    ensures Fill(cfg, n, 0) ==> Fill(cfg, left, cfg.min) && Fill(cfg, right, cfg.min)
    ensures Owned(right, Some(n), cfg.isoid)
    ensures n.isoid == cfg.isoid ==> Owned(left, Some(n), cfg.isoid)
  {
    var i := cfg.max / 2;
    median := n.items[i];
    assert n.items == n.items[..i] + [median] + n.items[i + 1..];
    if n.Leaf? {
      right := UpdateCount(Leaf(cfg.isoid, 0, n.items[i + 1..]));
      left := UpdateCount(Leaf(n.isoid, n.count, n.items[..i]));
    } else {
      var cs := n.children;
      ChildrenPart(cfg, cs, cs[i + 1..], i + 1, |cs|, h - 1);
      ChildrenPart(cfg, cs, cs[..i + 1], 0, i + 1, h - 1);
      right := UpdateCount(Branch(cfg.isoid, 0, n.items[i + 1..], cs[i + 1..]));
      left := UpdateCount(Branch(n.isoid, n.count, n.items[..i], cs[..i + 1]));
      BranchSplitOk(cfg, n, h, i, left, right);
      SplitWalk(n, i, left, right);
      KidsWithin(n, cfg.isoid);
      KidsOwnedSlice(cs, 0, i + 1, Some(n), cfg.isoid);
      KidsOwnedSlice(cs, i + 1, |cs|, Some(n), cfg.isoid);
    }
    OwnedNode(right, Some(n), cfg.isoid);
    if n.isoid == cfg.isoid {
      OwnedNode(left, Some(n), cfg.isoid);
    }
  }

  /** The two halves of a branch split around item `i` are well formed, and well
      filled when it was. */
  lemma {:induction false} BranchSplitOk<T>(cfg: Config<T>, n: Node<T>, h: nat, i: nat, left: Node<T>, right: Node<T>)
    requires ValidConfig(cfg) && Shaped(n, h) && n.Branch? && i == cfg.max / 2 && |n.items| == cfg.max
    requires left == Branch(left.isoid, left.count, n.items[..i], n.children[..i + 1]) && left.count == |Walk(left)|
    requires right == Branch(right.isoid, right.count, n.items[i + 1..], n.children[i + 1..]) && right.count == |Walk(right)|
    ensures Shaped(left, h) && Shaped(right, h)
    ensures Fill(cfg, n, 0) ==> Fill(cfg, left, cfg.min) && Fill(cfg, right, cfg.min)
  {
    var cs := n.children;
    ChildrenPart(cfg, cs, cs[i + 1..], i + 1, |cs|, h - 1);
    ChildrenPart(cfg, cs, cs[..i + 1], 0, i + 1, h - 1);
  }

  /** A run of a node's children keeps what is known of each child. */
  lemma ChildrenPart<T>(cfg: Config<T>, cs: seq<Node<T>>, part: seq<Node<T>>, a: nat, b: nat, h: nat)
    requires a <= b <= |cs| && part == cs[a..b]
    requires forall k :: 0 <= k < |cs| ==> Shaped(cs[k], h)
    ensures forall k :: 0 <= k < |part| ==> Shaped(part[k], h) && part[k].count == |Walk(part[k])|
    ensures (forall k :: 0 <= k < |cs| ==> Fill(cfg, cs[k], cfg.min)) ==>
              forall k :: 0 <= k < |part| ==> Fill(cfg, part[k], cfg.min)
  {
    forall k | 0 <= k < |part| ensures part[k] == cs[a + k] {
    }
  }

  // ---------------------------------------------------------------------------
  // Upsert

  /** Whether an upsert of `item` below `n` reports a split: the item is not found
      on its search path, and every node along that path is full. */
  ghost predicate FullPath<T>(cfg: Config<T>, n: Node<T>, item: T)
    decreases n
  {
    |n.items| == cfg.max && !Holds(cfg.less, n.items, item) &&
    (n.Branch? ==>
      var i := LowerBound(cfg.less, n.items, item);
      i < |n.children| && FullPath(cfg, n.children[i], item))
  }

  /** A child of a well-formed node is well-formed, and its contents sit between the
      separators around it. */
  lemma ChildWf<T>(cfg: Config<T>, n: Node<T>, h: nat, lo: int, i: nat)
    requires Wf(cfg, n, h, lo) && n.Branch? && i <= |n.items|
    ensures h > 0 && Wf(cfg, n.children[i], h - 1, cfg.min)
    ensures Ascending(cfg.less, n.items)
  {
    var ws := Walks(n.children);
    Around(n.items, ws, i);
    AscendingInfix(cfg.less, Before(n.items, ws, i), ws[i], After(n.items, ws, i));
    ItemsAscending(cfg.less, n);
  }

  /** The contents around child `i` of a node whose search for `item` leads there: all
      sort before `item` on the left and after it on the right. */
  lemma Brackets<T>(cfg: Config<T>, n: Node<T>, i: nat, item: T)
    requires n.Branch? && |n.children| == |n.items| + 1 && i <= |n.items|
    requires Ascending(cfg.less, Walk(n))
    requires forall k :: 0 <= k < i ==> cfg.less.Lt(n.items[k], item)
    requires forall k :: i <= k < |n.items| ==> cfg.less.Lt(item, n.items[k])
    ensures var ws := Walks(n.children);
      (forall k :: 0 <= k < |Before(n.items, ws, i)| ==> cfg.less.Lt(Before(n.items, ws, i)[k], item)) &&
      (forall k :: 0 <= k < |After(n.items, ws, i)| ==> cfg.less.Lt(item, After(n.items, ws, i)[k]))
  {
    var ws := Walks(n.children);
    var B, A := Before(n.items, ws, i), After(n.items, ws, i);
    Around(n.items, ws, i);
    assert Walk(n) == B + (ws[i] + A);
    Below(cfg.less, B, ws[i] + A, item);
    assert Walk(n) == (B + ws[i]) + A;
    Above(cfg.less, B + ws[i], A, item);
  }

  /** The contents around the child where the search for `key` leads: all sort
      before `key` on the left and after it on the right. */
  lemma Straddles<T>(o: Order<T>, n: Node<T>, i: nat, key: T)
    requires n.Branch? && |n.children| == |n.items| + 1 && Ascending(o, Walk(n))
    requires i == LowerBound(o, n.items, key) && !Holds(o, n.items, key) && Ascending(o, n.items)
    ensures var ws := Walks(n.children);
      (forall k :: 0 <= k < |Before(n.items, ws, i)| ==> o.Lt(Before(n.items, ws, i)[k], key)) &&
      (forall k :: 0 <= k < |After(n.items, ws, i)| ==> o.Lt(key, After(n.items, ws, i)[k]))
  {
    Gap(o, n.items, key);
    Brackets(Config(0, 0, 0, o), n, i, key);
  }

  /** An upsert that finds an equivalent item in node `n` overwrites it. */
  lemma UpsertFound<T>(cfg: Config<T>, n: Node<T>, h: nat, lo: int, i: nat, item: T)
    requires Wf(cfg, n, h, lo) && i < |n.items| && cfg.less.Equiv(n.items[i], item)
    ensures Wf(cfg, n.(items := n.items[i := item]), h, lo)
    ensures Walk(n.(items := n.items[i := item])) == Upserted(cfg.less, Walk(n), item)
    ensures Lookup(cfg.less, Walk(n), item) == Some(n.items[i])
  {
    var xs, r := n.items, n.(items := n.items[i := item]);
    var xs2 := xs[i := item];
    var P, Q := xs[..i], xs[i + 1..];
    if n.Branch? {
      var ws := Walks(n.children);
      P, Q := Flat(xs[..i], ws[..i + 1]), Flat(xs[i + 1..], ws[i + 1..]);
    }
    assert Walk(n) == P + [xs[i]] + Q && Walk(r) == P + [item] + Q by {
      assert xs2[..i] == xs[..i] && xs2[i + 1..] == xs[i + 1..];
      if n.Leaf? {
        assert xs == xs[..i] + [xs[i]] + xs[i + 1..];
        assert xs2 == xs[..i] + [item] + xs[i + 1..];
      } else {
        FlatSplit(xs, Walks(n.children), i);
        FlatSplit(xs2, Walks(n.children), i);
      }
    }
    UpsertedAt(cfg.less, P, xs[i], Q, item);
    assert Shaped(r, h) && Fill(cfg, r, lo) by {
      if n.Branch? {
        assert r.children == n.children;
      }
    }
  }

  /** An upsert that reaches a leaf with room inserts the item at its place. */
  lemma UpsertLeaf<T>(cfg: Config<T>, n: Node<T>, lo: int, i: nat, item: T)
    requires Wf(cfg, n, 0, lo) && n.Leaf? && |n.items| < cfg.max
    requires i == LowerBound(cfg.less, n.items, item) && !Holds(cfg.less, n.items, item)
    ensures Wf(cfg, Leaf(n.isoid, n.count + 1, n.items[..i] + [item] + n.items[i..]), 0, lo)
    ensures n.items[..i] + [item] + n.items[i..] == Upserted(cfg.less, Walk(n), item)
    ensures Lookup(cfg.less, Walk(n), item) == None
  {
  }

  /** An upsert below child `i` that did not split it. */
  lemma UpsertBelow<T>(cfg: Config<T>, n: Node<T>, h: nat, lo: int, i: nat, item: T, c: Node<T>, p: Option<T>)
    requires Wf(cfg, n, h, lo) && n.Branch? && i == LowerBound(cfg.less, n.items, item)
    requires !Holds(cfg.less, n.items, item) && Ascending(cfg.less, n.items)
    requires i <= |n.items| && h > 0
    requires Ascending(cfg.less, Walk(n.children[i]))
    requires Wf(cfg, c, h - 1, cfg.min)
    requires Walk(c) == Upserted(cfg.less, Walk(n.children[i]), item)
    requires p == Lookup(cfg.less, Walk(n.children[i]), item)
    ensures var r := n.(children := n.children[i := c], count := if p.None? then n.count + 1 else n.count);
      Wf(cfg, r, h, lo) &&
      Walk(r) == Upserted(cfg.less, Walk(n), item) &&
      p == Lookup(cfg.less, Walk(n), item)
  {
    var r := n.(children := n.children[i := c], count := if p.None? then n.count + 1 else n.count);
    var ws := Walks(n.children);
    var B, A := Before(n.items, ws, i), After(n.items, ws, i);
    assert Walk(n) == B + ws[i] + A && Walk(r) == B + Walk(c) + A by {
      BranchAround(n, i, c);
      assert Walk(r) == Walk(n.(children := n.children[i := c]));
    }
    Straddles(cfg.less, n, i, item);
    UpsertedInside(cfg.less, B, ws[i], A, item);
    KidsOf(cfg, n, h, lo);
    KidsReplace(cfg, n.children, i, c, h - 1);
    Reassembled(cfg, r, h, lo);
  }

  /** A child split below a node that is itself full: the split is passed up. */
  lemma SplitPassedUp<T>(cfg: Config<T>, n: Node<T>, h: nat, lo: int, i: nat, item: T, c: Node<T>)
    requires Wf(cfg, n, h, lo) && n.Branch? && i == LowerBound(cfg.less, n.items, item)
    requires !Holds(cfg.less, n.items, item) && |n.items| == cfg.max && h > 0
    requires Wf(cfg, c, h - 1, cfg.min) && Walk(c) == Walk(n.children[i])
    requires FullPath(cfg, n.children[i], item)
    ensures Wf(cfg, n.(children := n.children[i := c]), h, lo)
    ensures Walk(n.(children := n.children[i := c])) == Walk(n)
    ensures FullPath(cfg, n, item)
  {
    var r := n.(children := n.children[i := c]);
    BranchReplaceSame(n, i, c);
    assert forall k :: 0 <= k < |r.children| ==> Shaped(r.children[k], h - 1);
    assert forall k :: 0 <= k < |r.children| ==> Fill(cfg, r.children[k], cfg.min);
  }

  /** A split child taken in by a node with room: the median moves up between the two
      halves and the contents stay. */
  lemma SplitTakenIn<T>(cfg: Config<T>, n: Node<T>, h: nat, lo: int, i: nat,
                        c: Node<T>, left: Node<T>, right: Node<T>, median: T)
    requires Wf(cfg, n, h, lo) && n.Branch? && h > 0 && i <= |n.items| && |n.items| < cfg.max
    requires Walk(c) == Walk(n.children[i])
    requires Shaped(left, h - 1) && Shaped(right, h - 1)
    requires Fill(cfg, left, cfg.min) && Fill(cfg, right, cfg.min)
    requires Walk(left) + [median] + Walk(right) == Walk(c)
    ensures var m := n.(items := n.items[..i] + [median] + n.items[i..],
                        children := n.children[..i] + [left, right] + n.children[i + 1..]);
      Wf(cfg, m, h, lo) && Walk(m) == Walk(n) && |m.items| == |n.items| + 1
  {
    var xs, cs := n.items, n.children;
    var m := n.(items := xs[..i] + [median] + xs[i..], children := cs[..i] + [left, right] + cs[i + 1..]);
    TakenInWalk(n, i, left, right, median);
    TakenInKids(cfg, n, h, lo, i, left, right);
    Reassembled(cfg, m, h, lo);
  }

  lemma TakenInWalk<T>(n: Node<T>, i: nat, left: Node<T>, right: Node<T>, median: T)
    requires n.Branch? && |n.children| == |n.items| + 1 && i <= |n.items|
    requires Walk(left) + [median] + Walk(right) == Walk(n.children[i])
    ensures Walk(n.(items := n.items[..i] + [median] + n.items[i..],
                    children := n.children[..i] + [left, right] + n.children[i + 1..])) == Walk(n)
  {
    var xs, cs := n.items, n.children;
    var ws := Walks(cs);
    var cs2 := cs[..i] + [left, right] + cs[i + 1..];
    assert Walks(cs2) == ws[..i] + [Walk(left), Walk(right)] + ws[i + 1..];
    FlatInsertSplit(xs, ws, i, Walk(left), median, Walk(right));
  }

  lemma {:induction false} TakenInKids<T>(cfg: Config<T>, n: Node<T>, h: nat, lo: int, i: nat, left: Node<T>, right: Node<T>)
    requires n.Branch? && Shaped(n, h) && Fill(cfg, n, lo) && i < |n.children|
    requires Shaped(left, h - 1) && Shaped(right, h - 1)
    requires Fill(cfg, left, cfg.min) && Fill(cfg, right, cfg.min)
    ensures Kids(cfg, n.children[..i] + [left, right] + n.children[i + 1..], h - 1)
  {
    var cs := n.children;
    KidsOf(cfg, n, h, lo);
    KidsSlice(cfg, cs, 0, i, h - 1);
    KidsSlice(cfg, cs, i + 1, |cs|, h - 1);
    assert cs[0..i] == cs[..i] && cs[i + 1..|cs|] == cs[i + 1..];
    KidsJoin(cfg, cs[..i], [left, right], h - 1);
    KidsJoin(cfg, cs[..i] + [left, right], cs[i + 1..], h - 1);
  }

  /** After a split child was taken in, the search for the item leads to one of the
      two halves, which are not full: the retry does not split again. */
  lemma RetryFits<T>(cfg: Config<T>, n: Node<T>, i: nat, item: T, left: Node<T>, right: Node<T>, median: T)
    requires ValidConfig(cfg) && n.Branch? && |n.children| == |n.items| + 1
    requires i == LowerBound(cfg.less, n.items, item) && !Holds(cfg.less, n.items, item)
    requires Ascending(cfg.less, n.items)
    requires |left.items| == cfg.min && |right.items| == cfg.min
    ensures !FullPath(cfg, n.(items := n.items[..i] + [median] + n.items[i..],
                              children := n.children[..i] + [left, right] + n.children[i + 1..]), item)
  {
    var xs := n.items;
    var m := n.(items := xs[..i] + [median] + xs[i..], children := n.children[..i] + [left, right] + n.children[i + 1..]);
    var ys := m.items;
    LowerBoundSplits(cfg.less, xs, item);
    var j := if cfg.less.Lt(median, item) then i + 1 else i;
    forall k | 0 <= k < j ensures cfg.less.Lt(ys[k], item) {
      if k < i {
        assert ys[k] == xs[k];
      }
    }
    forall k | j <= k < |ys| ensures !cfg.less.Lt(ys[k], item) {
      if k > i {
        assert ys[k] == xs[k - 1];
      }
    }
    LowerBoundUnique(cfg.less, ys, item, j);
    assert m.children[j] == left || m.children[j] == right;
  }

  /** nodeSet: upserts `item` into the subtree `n` and returns the new subtree. An
      equivalent item is overwritten and returned; otherwise the item is added at its
      place in the order. When the leaf it belongs in is full, and so is every node
      above it up to `n`, nothing is added and `split` asks the caller to split `n`
      and retry; a full child below a node with room is split on the spot. */
  method NodeSet<T>(cfg: Config<T>, n: Node<T>, item: T, hint: PathHint?, depth: nat, ghost h: nat, ghost lo: int)
    returns (r: Node<T>, prev: Option<T>, split: bool)
    requires ValidConfig(cfg) && Wf(cfg, n, h, lo) && lo >= 1
    requires hint != null ==> hint.Valid()
    modifies HintFrame(hint)
    decreases h, cfg.max - |n.items|, 1
    ensures r.isoid == cfg.isoid
    ensures split == FullPath(cfg, n, item)
    ensures Wf(cfg, r, h, lo)
    ensures split ==> prev == None && Walk(r) == Walk(n) && |r.items| == cfg.max
    ensures !split ==> Walk(r) == Upserted(cfg.less, Walk(n), item)
    ensures !split ==> prev == Lookup(cfg.less, Walk(n), item)
    ensures Owned(r, Some(n), cfg.isoid)
  {
    var m := IsoLoad(cfg, n, true);
    LoadOwned(cfg, n);
    ItemsAscending(cfg.less, m);
    var i, found := Find(cfg.less, m, item, hint, depth);
    if found {
      UpsertFound(cfg, m, h, lo, i, item);
      r := m.(items := m.items[i := item]);
      if n.Branch? {
        KidsWithin(n, cfg.isoid);
      }
      OwnedNode(r, Some(n), cfg.isoid);
      return r, Some(m.items[i]), false;
    }
    if m.Leaf? {
      if |m.items| == cfg.max {
        return m, None, true;
      }
      UpsertLeaf(cfg, m, lo, i, item);
      r := Leaf(m.isoid, m.count + 1, m.items[..i] + [item] + m.items[i..]);
      OwnedNode(r, Some(n), cfg.isoid);
      return r, None, false;
    }
    r, prev, split := NodeSetBelow(cfg, m, i, item, hint, depth, h, lo);
    OwnedTrans(r, m, Some(n), cfg.isoid);
  }

  /** nodeSet in a branch where the item was not found: the upsert continues in child
      `i`, where the search leads. */
  method NodeSetBelow<T>(cfg: Config<T>, m: Node<T>, i: nat, item: T, hint: PathHint?, depth: nat,
                         ghost h: nat, ghost lo: int)
    returns (r: Node<T>, prev: Option<T>, split: bool)
    requires ValidConfig(cfg) && Wf(cfg, m, h, lo) && lo >= 1 && m.Branch? && m.isoid == cfg.isoid
    requires i == LowerBound(cfg.less, m.items, item) && !Holds(cfg.less, m.items, item)
    requires Ascending(cfg.less, m.items)
    requires hint != null ==> hint.Valid()
    modifies HintFrame(hint)
    decreases h, cfg.max - |m.items|, 0
    ensures r.isoid == cfg.isoid
    ensures split == FullPath(cfg, m, item)
    ensures Wf(cfg, r, h, lo)
    ensures split ==> prev == None && Walk(r) == Walk(m) && |r.items| == cfg.max
    ensures !split ==> Walk(r) == Upserted(cfg.less, Walk(m), item)
    ensures !split ==> prev == Lookup(cfg.less, Walk(m), item)
    ensures Owned(r, Some(m), cfg.isoid)
  {
    ChildWf(cfg, m, h, lo, i);
    var c, p, s := NodeSet(cfg, m.children[i], item, hint, depth + 1, h - 1, cfg.min);
    ChildrenOwned(m, i, c, cfg.isoid);
    if s {
      if |m.items| == cfg.max {
        SplitPassedUp(cfg, m, h, lo, i, item, c);
        r := m.(children := m.children[i := c]);
        OwnedNode(r, Some(m), cfg.isoid);
        return r, None, true;
      }
      var m2 := SplitChild(cfg, m, h, lo, i, c, item);
      r, prev, split := NodeSet(cfg, m2, item, hint, depth, h, lo);
      OwnedTrans(r, m2, Some(m), cfg.isoid);
      return;
    }
    UpsertBelow(cfg, m, h, lo, i, item, c, p);
    r := m.(children := m.children[i := c], count := if p.None? then m.count + 1 else m.count);
    OwnedNode(r, Some(m), cfg.isoid);
    return r, p, false;
  }

  /** The split-on-the-spot step of nodeSet: child `i`, whose subtree reported a split,
      is split in two and the median taken into `m`, which has room for it. */
  method SplitChild<T>(cfg: Config<T>, m: Node<T>, ghost h: nat, ghost lo: int, i: nat, c: Node<T>, item: T)
    returns (m2: Node<T>)
    requires ValidConfig(cfg) && Wf(cfg, m, h, lo) && m.Branch? && |m.items| < cfg.max
    requires i == LowerBound(cfg.less, m.items, item) && !Holds(cfg.less, m.items, item)
    requires Ascending(cfg.less, m.items) && h > 0
    requires Wf(cfg, c, h - 1, cfg.min) && Walk(c) == Walk(m.children[i]) && |c.items| == cfg.max
    ensures m2.isoid == m.isoid && m2.Branch?
    ensures Wf(cfg, m2, h, lo) && Walk(m2) == Walk(m) && |m2.items| == |m.items| + 1
    ensures !FullPath(cfg, m2, item)
    ensures m.isoid == c.isoid == cfg.isoid && Owned(c, Some(m.children[i]), cfg.isoid) ==>
      Owned(m2, Some(m), cfg.isoid)
  {
    var left, right, median := NodeSplit(cfg, c, h - 1);
    SplitTakenIn(cfg, m, h, lo, i, c, left, right, median);
    RetryFits(cfg, m, i, item, left, right, median);
    m2 := m.(items := m.items[..i] + [median] + m.items[i..],
             children := m.children[..i] + [left, right] + m.children[i + 1..]);
    if m.isoid == c.isoid == cfg.isoid && Owned(c, Some(m.children[i]), cfg.isoid) {
      SplitOwned(m, i, c, left, right, cfg.isoid);
      OwnedNode(m2, Some(m), cfg.isoid);
    }
  }

  /** The children of `m` with child `i` split into `left` and `right`, both built
      from what became of that child, are all built from `m`. */
  lemma SplitOwned<T>(m: Node<T>, i: nat, c: Node<T>, left: Node<T>, right: Node<T>, id: nat)
    requires m.Branch? && i < |m.children| && m.isoid == id && Owned(c, Some(m.children[i]), id)
    requires Owned(left, Some(c), id) && Owned(right, Some(c), id)
    ensures KidsOwned(m.children[..i] + [left, right] + m.children[i + 1..], Some(m), id)
  {
    OwnedTrans(left, c, Some(m.children[i]), id);
    OwnedTrans(right, c, Some(m.children[i]), id);
    OwnedBelow(left, m, i, id);
    OwnedBelow(right, m, i, id);
    KidsWithin(m, id);
    KidsOwnedSlice(m.children, 0, i, Some(m), id);
    KidsOwnedSlice(m.children, i + 1, |m.children|, Some(m), id);
  }
}
