/** Deletion from a B-tree: `delete`, which removes a key or the maximum of a
    subtree, and `nodeRebalance`, which repairs a child left with too few items
    (btree/btree.go:476-603). */
module BTreeDelete {
  import opened Ordering
  import opened BTreeNodes
  import opened BTreeSearch
  import opened BTreeInsert

  // ---------------------------------------------------------------------------
  // The walk around two neighbouring children

  /** A node's contents with children `j` and `j + 1` and the item between them seen
      as one block. */
  lemma {:induction false} FlatPair<T>(xs: seq<T>, ws: seq<seq<T>>, j: nat)
    requires |ws| == |xs| + 1 && j < |xs|
    ensures Flat(xs, ws) == Flat(xs[..j] + xs[j + 1..], ws[..j] + [ws[j] + [xs[j]] + ws[j + 1]] + ws[j + 2..])
  {
    var xs0, ws0 := xs[..j] + xs[j + 1..], ws[..j] + [ws[j] + [xs[j]] + ws[j + 1]] + ws[j + 2..];
    FlatInsertSplit(xs0, ws0, j, ws[j], xs[j], ws[j + 1]);
    assert xs0[..j] + [xs[j]] + xs0[j..] == xs;
    assert ws0[..j] + [ws[j], ws[j + 1]] + ws0[j + 1..] == ws;
  }

  /** Two nodes that differ only in children `j`, `j + 1` and the item between them
      have the same contents when that block has. */
  lemma {:induction false} SameBlock<T>(n: Node<T>, r: Node<T>, j: nat)
    requires n.Branch? && r.Branch? && |n.children| == |n.items| + 1 && j < |n.items|
    requires |r.items| == |n.items| && |r.children| == |n.children|
    requires forall k :: 0 <= k < |n.items| && k != j ==> r.items[k] == n.items[k]
    requires forall k :: 0 <= k < |n.children| && k != j && k != j + 1 ==> r.children[k] == n.children[k]
    requires Walk(r.children[j]) + [r.items[j]] + Walk(r.children[j + 1]) ==
             Walk(n.children[j]) + [n.items[j]] + Walk(n.children[j + 1])
    ensures Walk(r) == Walk(n)
  {
    var xs, ws, ys, vs := n.items, Walks(n.children), r.items, Walks(r.children);
    FlatPair(xs, ws, j);
    FlatPair(ys, vs, j);
    assert ys[..j] + ys[j + 1..] == xs[..j] + xs[j + 1..];
    assert vs[..j] == ws[..j] && vs[j + 2..] == ws[j + 2..];
  }

  /** Merging two nodes around a separator. */
  lemma {:induction false} JoinWalk<T>(L: Node<T>, s: T, R: Node<T>, M: Node<T>)
    requires L.Leaf? == R.Leaf? && M.Leaf? == L.Leaf?
    requires M.items == L.items + [s] + R.items
    requires L.Branch? ==> (|L.children| == |L.items| + 1 && |R.children| == |R.items| + 1 &&
                           M.children == L.children + R.children)
    ensures Walk(M) == Walk(L) + [s] + Walk(R)
  {
    if L.Branch? {
      var ws := Walks(M.children);
      FlatSplit(M.items, ws, |L.items|);
      assert M.items[..|L.items|] == L.items && M.items[|L.items| + 1..] == R.items;
      assert ws[..|L.items| + 1] == Walks(L.children);
      assert ws[|L.items| + 1..] == Walks(R.children);
    }
  }

  // ---------------------------------------------------------------------------
  // nodeRebalance

  /** What `nodeRebalance` requires: child `i` holds one item too few, every other
      child is well filled. */
  ghost predicate Underfull<T>(cfg: Config<T>, n: Node<T>, i: nat, h: nat) {
    ValidConfig(cfg) && n.Branch? && Shaped(n, h) &&
    1 <= |n.items| <= cfg.max && i <= |n.items| &&
    (forall k :: 0 <= k < |n.children| && k != i ==> Fill(cfg, n.children[k], cfg.min)) &&
    Fill(cfg, n.children[i], cfg.min - 1) && |n.children[i].items| < cfg.min
  }

  /** `L` is `c` as `isoLoad` returns it: the same node, possibly with another isoid. */
  ghost predicate Loaded<T>(c: Node<T>, L: Node<T>) {
    L.Leaf? == c.Leaf? && L.count == c.count && L.items == c.items &&
    (L.Branch? ==> L.children == c.children)
  }

  lemma {:induction false} LoadedSame<T>(cfg: Config<T>, c: Node<T>, L: Node<T>, h: nat, lo: int)
    requires Loaded(c, L) && Shaped(c, h) && Fill(cfg, c, lo)
    ensures Walk(L) == Walk(c) && Shaped(L, h) && Fill(cfg, L, lo)
  {
  }

  /** Replacing children `j`, `j + 1` and the item between them by one merged child. */
  lemma {:induction false} MergedParent<T>(n: Node<T>, j: nat, M: Node<T>, r: Node<T>)
    requires n.Branch? && |n.children| == |n.items| + 1 && j < |n.items|
    requires Walk(M) == Walk(n.children[j]) + [n.items[j]] + Walk(n.children[j + 1])
    requires r == n.(items := n.items[..j] + n.items[j + 1..], children := n.children[..j] + [M] + n.children[j + 2..])
    ensures Walk(r) == Walk(n)
  {
    var xs, ws := n.items, Walks(n.children);
    FlatPair(xs, ws, j);
    assert Walks(r.children) == ws[..j] + [ws[j] + [xs[j]] + ws[j + 1]] + ws[j + 2..];
  }

  /** What `nodeRebalance` works with once the pair `j`, `j + 1` is chosen: both
      children are well formed with at least `min - 1` items, one of them fewer than
      `min`, and every other child is well filled. */
  ghost predicate PairReady<T>(cfg: Config<T>, n: Node<T>, h: nat, j: nat) {
    ValidConfig(cfg) && n.Branch? && |n.children| == |n.items| + 1 && n.count == |Walk(n)| &&
    j < |n.items| <= cfg.max && h > 0 &&
    Shaped(n.children[j], h - 1) && Fill(cfg, n.children[j], cfg.min - 1) &&
    Shaped(n.children[j + 1], h - 1) && Fill(cfg, n.children[j + 1], cfg.min - 1) &&
    n.children[j].Leaf? == n.children[j + 1].Leaf? &&
    |n.children[j].items| + |n.children[j + 1].items| + 1 >= cfg.min &&
    (|n.children[j].items| < cfg.min || |n.children[j + 1].items| < cfg.min) &&
    Kids(cfg, n.children[..j], h - 1) && Kids(cfg, n.children[j + 2..], h - 1)
  }

  lemma {:induction false} UnderfullPair<T>(cfg: Config<T>, n: Node<T>, i: nat, h: nat, j: nat)
    requires Underfull(cfg, n, i, h) && (j == i || j + 1 == i) && j < |n.items|
    ensures PairReady(cfg, n, h, j)
  {
    var cs := n.children;
    if j == i {
      assert Fill(cfg, cs[j + 1], cfg.min);
    } else {
      assert Fill(cfg, cs[j], cfg.min);
    }
    forall k | 0 <= k < j ensures Shaped(cs[..j][k], h - 1) && Fill(cfg, cs[..j][k], cfg.min) {
      assert cs[..j][k] == cs[k];
    }
    var tail := cs[j + 2..];
    forall k | 0 <= k < |tail| ensures Shaped(tail[k], h - 1) && Fill(cfg, tail[k], cfg.min) {
      assert tail[k] == cs[j + 2 + k];
    }
  }

  /** `M` is `L`, the separator `s` and `R` joined into one node. */
  ghost predicate Joined<T>(L: Node<T>, s: T, R: Node<T>, M: Node<T>) {
    M.Leaf? == L.Leaf? && M.count == L.count + R.count + 1 && M.items == L.items + [s] + R.items &&
    (M.Branch? ==> R.Branch? && M.children == L.children + R.children)
  }

  lemma {:induction false} MergeOk<T>(cfg: Config<T>, n: Node<T>, h: nat, j: nat, L: Node<T>, R: Node<T>, M: Node<T>, r: Node<T>)
    requires PairReady(cfg, n, h, j)
    requires Loaded(n.children[j], L) && Loaded(n.children[j + 1], R)
    requires |L.items| + |R.items| < cfg.max && Joined(L, n.items[j], R, M)
    requires r == n.(items := n.items[..j] + n.items[j + 1..], children := n.children[..j] + [M] + n.children[j + 2..])
    ensures Shaped(r, h) && Walk(r) == Walk(n) && Fill(cfg, r, |n.items| - 1)
  {
    var cs := n.children;
    LoadedSame(cfg, cs[j], L, h - 1, cfg.min - 1);
    LoadedSame(cfg, cs[j + 1], R, h - 1, cfg.min - 1);
    JoinWalk(L, n.items[j], R, M);
    MergedNode(cfg, L, R, M, h - 1);
    MergedParent(n, j, M, r);
    KidsJoin(cfg, cs[..j], [M], h - 1);
    KidsJoin(cfg, cs[..j] + [M], cs[j + 2..], h - 1);
    Reassembled(cfg, r, h, |n.items| - 1);
  }

  /** The merged node is well formed and well filled. */
  lemma {:induction false} MergedNode<T>(cfg: Config<T>, L: Node<T>, R: Node<T>, M: Node<T>, h: nat)
    requires Shaped(L, h) && Shaped(R, h) && Fill(cfg, L, cfg.min - 1) && Fill(cfg, R, cfg.min - 1)
    requires M.Leaf? == L.Leaf? && M.Leaf? == R.Leaf? && M.count == |Walk(M)|
    requires cfg.min <= |M.items| <= cfg.max
    requires M.Branch? ==> M.children == L.children + R.children && |M.children| == |M.items| + 1
    ensures Shaped(M, h) && Fill(cfg, M, cfg.min)
  {
    if M.Branch? {
      KidsOf(cfg, L, h, cfg.min - 1);
      KidsOf(cfg, R, h, cfg.min - 1);
      KidsJoin(cfg, L.children, R.children, h - 1);
    }
    Rebuilt(cfg, M, h);
  }

  lemma {:induction false} FlatSnoc<T>(xs: seq<T>, ws: seq<seq<T>>, x: T, w: seq<T>)
    requires |ws| == |xs| + 1
    ensures Flat(xs + [x], ws + [w]) == Flat(xs, ws) + [x] + w
  {
    var xs2, ws2 := xs + [x], ws + [w];
    FlatSplit(xs2, ws2, |xs|);
    assert xs2[..|xs|] == xs && ws2[..|xs| + 1] == ws;
    assert xs2[|xs| + 1..] == [] && ws2[|xs| + 1..] == [w];
  }

  lemma {:induction false} FlatCons<T>(x: T, w: seq<T>, xs: seq<T>, ws: seq<seq<T>>)
    requires |ws| == |xs| + 1
    ensures Flat([x] + xs, [w] + ws) == w + [x] + Flat(xs, ws)
  {
    var xs2, ws2 := [x] + xs, [w] + ws;
    FlatSplit(xs2, ws2, 0);
    assert xs2[..0] == [] && ws2[..1] == [w];
    assert xs2[1..] == xs && ws2[1..] == ws;
  }

  /** A node that is `L` with one more item (and child) at its end. */
  lemma {:induction false} SnocWalk<T>(L: Node<T>, x: T, c: Node<T>, L2: Node<T>)
    requires L2.Leaf? == L.Leaf? && L2.items == L.items + [x]
    requires L.Branch? ==> |L.children| == |L.items| + 1 && L2.children == L.children + [c]
    ensures Walk(L2) == Walk(L) + [x] + (if L.Leaf? then [] else Walk(c))
  {
    if L.Branch? {
      assert Walks(L2.children) == Walks(L.children) + [Walk(c)];
      FlatSnoc(L.items, Walks(L.children), x, Walk(c));
    }
  }

  /** A node that is `R` with one more item (and child) at its front. */
  lemma {:induction false} ConsWalk<T>(x: T, c: Node<T>, R: Node<T>, R2: Node<T>)
    requires R2.Leaf? == R.Leaf? && R2.items == [x] + R.items
    requires R.Branch? ==> |R.children| == |R.items| + 1 && R2.children == [c] + R.children
    ensures Walk(R2) == (if R.Leaf? then [] else Walk(c)) + [x] + Walk(R)
  {
    if R.Branch? {
      assert Walks(R2.children) == [Walk(c)] + Walks(R.children);
      FlatCons(x, Walk(c), R.items, Walks(R.children));
    }
  }

  /** `L2`, `s`, `R2` are the pair `L`, `x`, `R` of height `h` after one item moved
      across from the larger node to the smaller: both well formed below, counted, and
      holding the same contents in the same order. */
  ghost predicate Shifted<T>(cfg: Config<T>, L: Node<T>, x: T, R: Node<T>, L2: Node<T>, s: T, R2: Node<T>, h: nat) {
    L2.Leaf? == L.Leaf? && R2.Leaf? == L.Leaf? &&
    (|L.items| > |R.items| ==> |L2.items| == |L.items| - 1 && |R2.items| == |R.items| + 1) &&
    (|L.items| <= |R.items| ==> |L2.items| == |L.items| + 1 && |R2.items| == |R.items| - 1) &&
    (L2.Branch? ==> (h >= 1 && |L2.children| == |L2.items| + 1 && |R2.children| == |R2.items| + 1 &&
      Kids(cfg, L2.children, h - 1) && Kids(cfg, R2.children, h - 1))) &&
    L2.count == |Walk(L2)| && R2.count == |Walk(R2)| &&
    Walk(L2) + [s] + Walk(R2) == Walk(L) + [x] + Walk(R)
  }

  lemma {:induction false} RotateOk<T>(cfg: Config<T>, n: Node<T>, h: nat, j: nat,
                                       L: Node<T>, R: Node<T>, L2: Node<T>, R2: Node<T>, s: T, r: Node<T>)
    requires PairReady(cfg, n, h, j)
    requires Loaded(n.children[j], L) && Loaded(n.children[j + 1], R)
    requires |L.items| + |R.items| >= cfg.max && Shifted(cfg, L, n.items[j], R, L2, s, R2, h - 1)
    requires r == n.(items := n.items[j := s], children := n.children[j := L2][j + 1 := R2])
    ensures Shaped(r, h) && Walk(r) == Walk(n) && Fill(cfg, r, |n.items|)
  {
    var cs := n.children;
    LoadedSame(cfg, cs[j], L, h - 1, cfg.min - 1);
    LoadedSame(cfg, cs[j + 1], R, h - 1, cfg.min - 1);
    SameBlock(n, r, j);
    Rebuilt(cfg, L2, h - 1);
    Rebuilt(cfg, R2, h - 1);
    assert r.children == cs[..j] + [L2, R2] + cs[j + 2..];
    KidsJoin(cfg, cs[..j], [L2, R2], h - 1);
    KidsJoin(cfg, cs[..j] + [L2, R2], cs[j + 2..], h - 1);
    Reassembled(cfg, r, h, |n.items|);
  }

  /** The neighbour that `nodeRebalance` pairs child `i` with: the pair is `j`, `j + 1`. */
  function Pair(items: nat, i: nat): (j: nat)
    requires 1 <= items && i <= items
    ensures j < items && (j == i || j + 1 == i)
  {
    if i == items then i - 1 else i
  }

  /** The items of a parent `n` and of its children `j` and `j + 1` after nodeRebalance
      repaired that pair: merged around the item between them when they fit in one
      node, otherwise one item moved through the parent from the larger of the two
      (the left one on a tie goes to the right one). */
  ghost predicate Rebalance<T>(cfg: Config<T>, n: Node<T>, j: nat, r: Node<T>)
    requires n.Branch? && j + 1 < |n.children| && j < |n.items|
  {
    var L, R := n.children[j], n.children[j + 1];
    r.Branch? &&
    if |L.items| + |R.items| < cfg.max then
      r.items == n.items[..j] + n.items[j + 1..] && |r.children| == |n.children| - 1 &&
      r.children[j].items == L.items + [n.items[j]] + R.items
    else if |L.items| > |R.items| then
      |L.items| > 0 &&
      r.items == n.items[j := L.items[|L.items| - 1]] && |r.children| == |n.children| &&
      r.children[j].items == L.items[..|L.items| - 1] && r.children[j + 1].items == [n.items[j]] + R.items
    else
      |R.items| > 0 &&
      r.items == n.items[j := R.items[0]] && |r.children| == |n.children| &&
      r.children[j].items == L.items + [n.items[j]] && r.children[j + 1].items == R.items[1..]
  }

  /** nodeRebalance: repairs child `i`, which holds one item too few, together with a
      neighbour (the one to its right, or to its left for the last child). When the
      two fit in one node they are merged around the item between them, which leaves
      the parent; otherwise one item moves from the larger of the two through the
      parent to the smaller, and with it one child when they are branches. */
  method NodeRebalance<T>(cfg: Config<T>, n: Node<T>, i: nat, ghost h: nat) returns (r: Node<T>)
    requires Underfull(cfg, n, i, h)
    ensures r.Branch? && r.isoid == n.isoid && r.count == n.count
    ensures Shaped(r, h) && Walk(r) == Walk(n) && Fill(cfg, r, |n.items| - 1)
    ensures Rebalance(cfg, n, Pair(|n.items|, i), r)
    ensures n.isoid == cfg.isoid ==> Owned(r, Some(n), cfg.isoid)
  {
    var j := Pair(|n.items|, i);
    UnderfullPair(cfg, n, i, h, j);
    var L, R := n.children[j], n.children[j + 1];
    if |L.items| + |R.items| < cfg.max {
      r := Merge(cfg, n, h, j);
    } else if |L.items| > |R.items| {
      r := RotateRight(cfg, n, h, j);
    } else {
      r := RotateLeft(cfg, n, h, j);
    }
  }

  /** The merging case of nodeRebalance. */
  method Merge<T>(cfg: Config<T>, n: Node<T>, ghost h: nat, j: nat) returns (r: Node<T>)
    requires PairReady(cfg, n, h, j)
    requires |n.children[j].items| + |n.children[j + 1].items| < cfg.max
    ensures r.Branch? && r.isoid == n.isoid && r.count == n.count
    ensures Shaped(r, h) && Walk(r) == Walk(n) && Fill(cfg, r, |n.items| - 1)
    ensures r.items == n.items[..j] + n.items[j + 1..] && |r.children| == |n.children| - 1
    ensures r.children[j].isoid == cfg.isoid
    ensures r.children[j].items == n.children[j].items + [n.items[j]] + n.children[j + 1].items
    ensures Rebalance(cfg, n, j, r)
    ensures n.isoid == cfg.isoid ==> Owned(r, Some(n), cfg.isoid)
  {
    var left := IsoLoad(cfg, n.children[j], true);
    var right := IsoLoad(cfg, n.children[j + 1], true);
    var merged: Node<T>;
    if left.Leaf? {
      merged := Leaf(left.isoid, left.count + right.count + 1, left.items + [n.items[j]] + right.items);
    } else {
      merged := Branch(left.isoid, left.count + right.count + 1, left.items + [n.items[j]] + right.items,
                       left.children + right.children);
    }
    r := n.(items := n.items[..j] + n.items[j + 1..], children := n.children[..j] + [merged] + n.children[j + 2..]);
    MergeOk(cfg, n, h, j, left, right, merged, r);
    if n.isoid == cfg.isoid {
      MergedOwned(n, j, merged, cfg.isoid);
      OwnedNode(r, Some(n), cfg.isoid);
    }
  }

  /** The children of `n` with the pair `j`, `j + 1` merged into `M`, a node of the
      tree holding the pair's children, are all built from `n`. */
  lemma MergedOwned<T>(n: Node<T>, j: nat, M: Node<T>, id: nat)
    requires n.Branch? && j + 1 < |n.children| && M.isoid == id
    requires M.Branch? ==>
      n.children[j].Branch? && n.children[j + 1].Branch? &&
      M.children == n.children[j].children + n.children[j + 1].children
    ensures KidsOwned(n.children[..j] + [M] + n.children[j + 2..], Some(n), id)
  {
    if M.Branch? {
      GrandkidsWithin(n, j, id);
      GrandkidsWithin(n, j + 1, id);
      KidsOwnedJoin(n.children[j].children, n.children[j + 1].children, Some(n), id);
    }
    KidsWithin(n, id);
    KidsOwnedSlice(n.children, 0, j, Some(n), id);
    KidsOwnedSlice(n.children, j + 2, |n.children|, Some(n), id);
    OwnedNode(M, Some(n), id);
    KidsOwnedJoin(n.children[..j], [M], Some(n), id);
    KidsOwnedJoin(n.children[..j] + [M], n.children[j + 2..], Some(n), id);
  }

  /** The children of `n` after a rotation of the pair `j`, `j + 1`: the two new
      nodes belong to the tree and hold only children of the old pair, so all the
      children are built from `n`. */
  lemma MovedOwned<T>(n: Node<T>, j: nat, L: Node<T>, s: T, R: Node<T>, L2: Node<T>, R2: Node<T>, id: nat)
    requires n.Branch? && j + 1 < |n.children| && L2.isoid == id && R2.isoid == id
    requires L == n.children[j].(isoid := L.isoid) && R == n.children[j + 1].(isoid := R.isoid)
    requires MovedRight(L, s, R, L2, R2) || MovedLeft(L, s, R, L2, R2)
    ensures KidsOwned(n.children[j := L2][j + 1 := R2], Some(n), id)
  {
    if L.Branch? {
      GrandkidsWithin(n, j, id);
      GrandkidsWithin(n, j + 1, id);
      var a, b := L.children, R.children;
      if MovedRight(L, s, R, L2, R2) {
        var k := |L.items|;
        KidsOwnedSlice(a, 0, k, Some(n), id);
        KidsOwnedSlice(a, k, k + 1, Some(n), id);
        assert [a[k]] == a[k..k + 1];
        KidsOwnedJoin([a[k]], b, Some(n), id);
      } else {
        KidsOwnedSlice(b, 0, 1, Some(n), id);
        KidsOwnedSlice(b, 1, |b|, Some(n), id);
        assert [b[0]] == b[0..1];
        KidsOwnedJoin(a, [b[0]], Some(n), id);
      }
    }
    OwnedNode(L2, Some(n), id);
    OwnedNode(R2, Some(n), id);
    KidsWithin(n, id);
    KidsOwnedUpdate(n.children, j, L2, Some(n), id);
    KidsOwnedUpdate(n.children[j := L2], j + 1, R2, Some(n), id);
  }

  /** What the rotations require of the pair: two well-formed nodes of height `h`,
      both leaves or both branches. */
  ghost predicate Siblings<T>(cfg: Config<T>, L: Node<T>, R: Node<T>, h: nat) {
    Shaped(L, h) && Shaped(R, h) && Fill(cfg, L, cfg.min - 1) && Fill(cfg, R, cfg.min - 1) && L.Leaf? == R.Leaf?
  }

  /** The nodes after an item moved from `L` through the separator `s` to `R`. */
  ghost predicate MovedRight<T>(L: Node<T>, s: T, R: Node<T>, L2: Node<T>, R2: Node<T>) {
    |L.items| > 0 && L.Leaf? == R.Leaf? && L2.Leaf? == L.Leaf? && R2.Leaf? == L.Leaf? &&
    L2.items == L.items[..|L.items| - 1] && R2.items == [s] + R.items &&
    (L.Leaf? ==> L2.count == L.count - 1 && R2.count == R.count + 1) &&
    (L.Branch? ==> (|L.children| == |L.items| + 1 &&
      L2.children == L.children[..|L.items|] && R2.children == [L.children[|L.items|]] + R.children &&
      L2.count == L.count - 1 - L.children[|L.items|].count && R2.count == R.count + 1 + L.children[|L.items|].count))
  }

  /** The nodes after an item moved from `R` through the separator `s` to `L`. */
  ghost predicate MovedLeft<T>(L: Node<T>, s: T, R: Node<T>, L2: Node<T>, R2: Node<T>) {
    |R.items| > 0 && L.Leaf? == R.Leaf? && L2.Leaf? == L.Leaf? && R2.Leaf? == L.Leaf? &&
    L2.items == L.items + [s] && R2.items == R.items[1..] &&
    (L.Leaf? ==> L2.count == L.count + 1 && R2.count == R.count - 1) &&
    (L.Branch? ==> (|R.children| == |R.items| + 1 &&
      L2.children == L.children + [R.children[0]] && R2.children == R.children[1..] &&
      L2.count == L.count + 1 + R.children[0].count && R2.count == R.count - 1 - R.children[0].count))
  }

  lemma {:induction false} MovedRightKids<T>(cfg: Config<T>, L: Node<T>, s: T, R: Node<T>, L2: Node<T>, R2: Node<T>, h: nat)
    requires Siblings(cfg, L, R, h) && MovedRight(L, s, R, L2, R2) && L.Branch?
    ensures h >= 1 && Kids(cfg, L2.children, h - 1) && Kids(cfg, R2.children, h - 1)
  {
    var k := |L.items| - 1;
    KidsOf(cfg, L, h, cfg.min - 1);
    KidsOf(cfg, R, h, cfg.min - 1);
    KidsSlice(cfg, L.children, 0, k + 1, h - 1);
    KidsSlice(cfg, L.children, k + 1, k + 2, h - 1);
    assert L.children[0..k + 1] == L2.children && L.children[k + 1..k + 2] == [L.children[k + 1]];
    KidsJoin(cfg, [L.children[k + 1]], R.children, h - 1);
  }

  lemma {:induction false} MovedLeftKids<T>(cfg: Config<T>, L: Node<T>, s: T, R: Node<T>, L2: Node<T>, R2: Node<T>, h: nat)
    requires Siblings(cfg, L, R, h) && MovedLeft(L, s, R, L2, R2) && L.Branch?
    ensures h >= 1 && Kids(cfg, L2.children, h - 1) && Kids(cfg, R2.children, h - 1)
  {
    KidsOf(cfg, L, h, cfg.min - 1);
    KidsOf(cfg, R, h, cfg.min - 1);
    KidsSlice(cfg, R.children, 1, |R.children|, h - 1);
    KidsSlice(cfg, R.children, 0, 1, h - 1);
    assert R.children[1..|R.children|] == R2.children && R.children[0..1] == [R.children[0]];
    KidsJoin(cfg, L.children, [R.children[0]], h - 1);
  }

  /** Moving an item to the right keeps the pair's contents around the new separator
      (the last item of `L`), and the cached counts right. */
  lemma {:induction false} MovedRightWalk<T>(L: Node<T>, s: T, R: Node<T>, L2: Node<T>, R2: Node<T>, h: nat)
    requires Shaped(L, h) && Shaped(R, h) && MovedRight(L, s, R, L2, R2)
    ensures L2.count == |Walk(L2)| && R2.count == |Walk(R2)|
    ensures Walk(L2) + [L.items[|L.items| - 1]] + Walk(R2) == Walk(L) + [s] + Walk(R)
  {
    var k := |L.items| - 1;
    var up := L.items[k];
    if L.Leaf? {
      assert L.items == L2.items + [up];
      assert L2.items + [up] + ([s] + R.items) == L.items + [s] + R.items;
    } else {
      var moved := L.children[k + 1];
      assert Shaped(moved, h - 1);
      var wm := Walk(moved);
      assert Walk(L) == Walk(L2) + [up] + wm by {
        assert L.children == L2.children + [moved];
        assert L.items == L2.items + [up];
        SnocWalk(L2, up, moved, L);
      }
      assert Walk(R2) == wm + [s] + Walk(R) by {
        ConsWalk(s, moved, R, R2);
      }
      Regroup(Walk(L2), up, wm, s, Walk(R));
    }
  }

  /** `a + [x] + (b + [y] + c)` and `(a + [x] + b) + [y] + c` are the same sequence. */
  lemma Regroup<T>(a: seq<T>, x: T, b: seq<T>, y: T, c: seq<T>)
    ensures a + [x] + (b + [y] + c) == a + [x] + b + [y] + c
  {
  }

  /** Moving an item to the left keeps the pair's contents around the new separator
      (the first item of `R`), and the cached counts right. */
  lemma {:induction false} MovedLeftWalk<T>(L: Node<T>, s: T, R: Node<T>, L2: Node<T>, R2: Node<T>, h: nat)
    requires Shaped(L, h) && Shaped(R, h) && MovedLeft(L, s, R, L2, R2)
    ensures L2.count == |Walk(L2)| && R2.count == |Walk(R2)|
    ensures Walk(L2) + [R.items[0]] + Walk(R2) == Walk(L) + [s] + Walk(R)
  {
    var up := R.items[0];
    if L.Leaf? {
      assert R.items == [up] + R2.items;
      assert L.items + [s] + [up] + R2.items == L.items + [s] + R.items;
    } else {
      var moved := R.children[0];
      assert Shaped(moved, h - 1);
      var wm := Walk(moved);
      assert Walk(R) == wm + [up] + Walk(R2) by {
        assert R.children == [moved] + R2.children;
        assert R.items == [up] + R2.items;
        ConsWalk(up, moved, R2, R);
      }
      assert Walk(L2) == Walk(L) + [s] + wm by {
        SnocWalk(L, s, moved, L2);
      }
      Regroup(Walk(L), s, wm, up, Walk(R2));
    }
  }

  /** The case of nodeRebalance where the left node is the larger: its last item
      moves up to the parent, and the parent's item moves down to the right node. */
  method RotateRight<T>(cfg: Config<T>, n: Node<T>, ghost h: nat, j: nat) returns (r: Node<T>)
    requires PairReady(cfg, n, h, j)
    requires var L, R := n.children[j], n.children[j + 1];
      |L.items| + |R.items| >= cfg.max && |L.items| > |R.items|
    ensures r.Branch? && r.isoid == n.isoid && r.count == n.count
    ensures Shaped(r, h) && Walk(r) == Walk(n) && Fill(cfg, r, |n.items|)
    ensures Rebalance(cfg, n, j, r)
    ensures n.isoid == cfg.isoid ==> Owned(r, Some(n), cfg.isoid)
  {
    var left := IsoLoad(cfg, n.children[j], true);
    var right := IsoLoad(cfg, n.children[j + 1], true);
    var left2, right2 := MoveRight(left, n.items[j], right);
    r := n.(items := n.items[j := left.items[|left.items| - 1]], children := n.children[j := left2][j + 1 := right2]);
    RotatedRight(cfg, n, h, j, left, right, left2, right2, r);
    if n.isoid == cfg.isoid {
      MovedOwned(n, j, left, n.items[j], right, left2, right2, cfg.isoid);
      OwnedNode(r, Some(n), cfg.isoid);
    }
  }

  /** The two nodes after an item moved from `L` through the separator `s` to `R`. */
  method MoveRight<T>(L: Node<T>, s: T, R: Node<T>) returns (L2: Node<T>, R2: Node<T>)
    requires |L.items| > 0 && L.Leaf? == R.Leaf? && (L.Branch? ==> |L.children| == |L.items| + 1)
    ensures MovedRight(L, s, R, L2, R2) && L2.isoid == L.isoid && R2.isoid == R.isoid
  {
    var k := |L.items| - 1;
    if L.Leaf? {
      R2 := Leaf(R.isoid, R.count + 1, [s] + R.items);
      L2 := Leaf(L.isoid, L.count - 1, L.items[..k]);
    } else {
      var moved := L.children[k + 1];
      R2 := Branch(R.isoid, R.count + 1 + moved.count, [s] + R.items, [moved] + R.children);
      L2 := Branch(L.isoid, L.count - 1 - moved.count, L.items[..k], L.children[..k + 1]);
    }
  }

  lemma {:induction false} RotatedRight<T>(cfg: Config<T>, n: Node<T>, h: nat, j: nat,
                                           L: Node<T>, R: Node<T>, L2: Node<T>, R2: Node<T>, r: Node<T>)
    requires PairReady(cfg, n, h, j)
    requires Loaded(n.children[j], L) && Loaded(n.children[j + 1], R)
    requires |L.items| + |R.items| >= cfg.max && |L.items| > |R.items|
    requires MovedRight(L, n.items[j], R, L2, R2)
    requires r == n.(items := n.items[j := L.items[|L.items| - 1]], children := n.children[j := L2][j + 1 := R2])
    ensures Shaped(r, h) && Walk(r) == Walk(n) && Fill(cfg, r, |n.items|)
    ensures Rebalance(cfg, n, j, r)
  {
    LoadedSame(cfg, n.children[j], L, h - 1, cfg.min - 1);
    LoadedSame(cfg, n.children[j + 1], R, h - 1, cfg.min - 1);
    MovedRightWalk(L, n.items[j], R, L2, R2, h - 1);
    if L.Branch? {
      MovedRightKids(cfg, L, n.items[j], R, L2, R2, h - 1);
    }
    RotateOk(cfg, n, h, j, L, R, L2, R2, L.items[|L.items| - 1], r);
  }

  /** The case of nodeRebalance where the right node is at least as large: its first
      item moves up to the parent, and the parent's item moves down to the left node. */
  method RotateLeft<T>(cfg: Config<T>, n: Node<T>, ghost h: nat, j: nat) returns (r: Node<T>)
    requires PairReady(cfg, n, h, j)
    requires var L, R := n.children[j], n.children[j + 1];
      |L.items| + |R.items| >= cfg.max && |L.items| <= |R.items|
    ensures r.Branch? && r.isoid == n.isoid && r.count == n.count
    ensures Shaped(r, h) && Walk(r) == Walk(n) && Fill(cfg, r, |n.items|)
    ensures Rebalance(cfg, n, j, r)
    ensures n.isoid == cfg.isoid ==> Owned(r, Some(n), cfg.isoid)
  {
    var left := IsoLoad(cfg, n.children[j], true);
    var right := IsoLoad(cfg, n.children[j + 1], true);
    var left2, right2 := MoveLeft(left, n.items[j], right);
    r := n.(items := n.items[j := right.items[0]], children := n.children[j := left2][j + 1 := right2]);
    RotatedLeft(cfg, n, h, j, left, right, left2, right2, r);
    if n.isoid == cfg.isoid {
      MovedOwned(n, j, left, n.items[j], right, left2, right2, cfg.isoid);
      OwnedNode(r, Some(n), cfg.isoid);
    }
  }

  /** The two nodes after an item moved from `R` through the separator `s` to `L`. */
  method MoveLeft<T>(L: Node<T>, s: T, R: Node<T>) returns (L2: Node<T>, R2: Node<T>)
    requires |R.items| > 0 && L.Leaf? == R.Leaf? && (R.Branch? ==> |R.children| == |R.items| + 1)
    ensures MovedLeft(L, s, R, L2, R2) && L2.isoid == L.isoid && R2.isoid == R.isoid
  {
    if L.Leaf? {
      L2 := Leaf(L.isoid, L.count + 1, L.items + [s]);
      R2 := Leaf(R.isoid, R.count - 1, R.items[1..]);
    } else {
      var moved := R.children[0];
      L2 := Branch(L.isoid, L.count + 1 + moved.count, L.items + [s], L.children + [moved]);
      R2 := Branch(R.isoid, R.count - 1 - moved.count, R.items[1..], R.children[1..]);
    }
  }

  lemma {:induction false} RotatedLeft<T>(cfg: Config<T>, n: Node<T>, h: nat, j: nat,
                                          L: Node<T>, R: Node<T>, L2: Node<T>, R2: Node<T>, r: Node<T>)
    requires PairReady(cfg, n, h, j)
    requires Loaded(n.children[j], L) && Loaded(n.children[j + 1], R)
    requires |L.items| + |R.items| >= cfg.max && |L.items| <= |R.items|
    requires MovedLeft(L, n.items[j], R, L2, R2)
    requires r == n.(items := n.items[j := R.items[0]], children := n.children[j := L2][j + 1 := R2])
    ensures Shaped(r, h) && Walk(r) == Walk(n) && Fill(cfg, r, |n.items|)
    ensures Rebalance(cfg, n, j, r)
  {
    LoadedSame(cfg, n.children[j], L, h - 1, cfg.min - 1);
    LoadedSame(cfg, n.children[j + 1], R, h - 1, cfg.min - 1);
    MovedLeftWalk(L, n.items[j], R, L2, R2, h - 1);
    if L.Branch? {
      MovedLeftKids(cfg, L, n.items[j], R, L2, R2, h - 1);
    }
    RotateOk(cfg, n, h, j, L, R, L2, R2, R.items[0], r);
  }

  // ---------------------------------------------------------------------------
  // delete

  /** A branch after a deletion below its child `i`: well shaped, and every child
      well filled except child `i`, which may hold one item too few. */
  ghost predicate Dented<T>(cfg: Config<T>, m: Node<T>, i: nat, h: nat, lo: int) {
    ValidConfig(cfg) && m.Branch? && Shaped(m, h) && lo <= |m.items| <= cfg.max && i <= |m.items| &&
    (forall k :: 0 <= k < |m.children| && k != i ==> Fill(cfg, m.children[k], cfg.min)) &&
    Fill(cfg, m.children[i], cfg.min - 1)
  }

  /** The last item of a non-empty sequence. */
  function Last<T>(s: seq<T>): (x: T)
    requires |s| > 0
    ensures x in s
  {
    s[|s| - 1]
  }

  /** A node's contents hold at least its own items. */
  lemma {:induction false} WalkCovers<T>(n: Node<T>, h: nat)
    requires Shaped(n, h)
    ensures |Walk(n)| >= |n.items|
  {
    if n.Branch? {
      FlatLen(n.items, Walks(n.children));
    }
  }

  /** Removing item `i` of a leaf: the maximum when `max`, otherwise the item
      equivalent to `key`. */
  lemma {:induction false} LeafRemoved<T>(cfg: Config<T>, n: Node<T>, lo: int, i: nat, key: T, max: bool)
    requires Wf(cfg, n, 0, lo) && n.Leaf? && i < |n.items|
    requires max ==> i == |n.items| - 1
    requires !max ==> cfg.less.Equiv(n.items[i], key)
    ensures var r := Leaf(n.isoid, n.count - 1, n.items[..i] + n.items[i + 1..]);
      Shaped(r, 0) && Fill(cfg, r, lo - 1) && Ascending(cfg.less, Walk(r)) &&
      (max ==> n.items[i] == Last(Walk(n)) && Walk(r) == Walk(n)[..|Walk(n)| - 1]) &&
      (!max ==> Some(n.items[i]) == Lookup(cfg.less, Walk(n), key) && Walk(r) == Removed(cfg.less, Walk(n), key))
  {
    var xs := n.items;
    assert xs == xs[..i] + [xs[i]] + xs[i + 1..];
    if max {
      assert xs[..i] + xs[i + 1..] == xs[..|xs| - 1];
    } else {
      RemovedAt(cfg.less, xs[..i], xs[i], xs[i + 1..], key);
    }
  }

  /** A well-formed branch with child `i` (and possibly item `i`) replaced, whose
      cached count matches its new contents. */
  lemma {:induction false} DentedAfter<T>(cfg: Config<T>, n: Node<T>, h: nat, lo: int, i: nat, m: Node<T>)
    requires ValidConfig(cfg) && Shaped(n, h) && Fill(cfg, n, lo) && n.Branch? && i <= |n.items|
    requires m.Branch? && |m.items| == |n.items| && |m.children| == |n.children| && m.count == |Walk(m)|
    requires forall k :: 0 <= k < |n.children| && k != i ==> m.children[k] == n.children[k]
    requires Shaped(m.children[i], h - 1) && Fill(cfg, m.children[i], cfg.min - 1)
    ensures Dented(cfg, m, i, h, lo)
  {
  }

  /** Deleting the maximum of the last child deletes the maximum of the node. */
  lemma {:induction false} MaxBelow<T>(n: Node<T>, c: Node<T>, p: Option<T>)
    requires n.Branch? && |n.children| == |n.items| + 1
    requires var w := Walk(n.children[|n.items|]);
      |w| > 0 && p == Some(Last(w)) && Walk(c) == w[..|w| - 1]
    ensures var m := n.(children := n.children[|n.items| := c], count := n.count - 1);
      |Walk(n)| > 0 && p == Some(Last(Walk(n))) && Walk(m) == Walk(n)[..|Walk(n)| - 1]
  {
    var i := |n.items|;
    var m := n.(children := n.children[i := c], count := n.count - 1);
    var ws := Walks(n.children);
    BranchAround(n, i, c);
    assert Walk(m) == Walk(n.(children := n.children[i := c]));
    assert After(n.items, ws, i) == [];
    assert Walk(n) == Before(n.items, ws, i) + ws[i];
  }

  /** Replacing the item equivalent to `key` in a branch by the maximum of the child
      before it, after deleting that maximum there, deletes `key`. */
  lemma {:induction false} Predecessor<T>(o: Order<T>, n: Node<T>, i: nat, key: T, c: Node<T>, y: T)
    requires n.Branch? && |n.children| == |n.items| + 1 && Ascending(o, Walk(n))
    requires i < |n.items| && o.Equiv(n.items[i], key)
    requires var w := Walk(n.children[i]);
      |w| > 0 && y == Last(w) && Walk(c) == w[..|w| - 1]
    ensures var m := n.(items := n.items[i := y], children := n.children[i := c], count := n.count - 1);
      Lookup(o, Walk(n), key) == Some(n.items[i]) && Walk(m) == Removed(o, Walk(n), key)
  {
    var xs, ws := n.items, Walks(n.children);
    var m := n.(items := n.items[i := y], children := n.children[i := c], count := n.count - 1);
    var B, Q := Before(xs, ws, i), Flat(xs[i + 1..], ws[i + 1..]);
    SlotWalk(n, i, n.children[i], xs[i]);
    assert n.(items := xs[i := xs[i]], children := n.children[i := n.children[i]]) == n;
    SlotWalk(n, i, c, y);
    assert Walk(m) == Walk(n.(items := xs[i := y], children := n.children[i := c]));
    assert B + Walk(c) + [y] == B + ws[i];
    RemovedAt(o, B + ws[i], xs[i], Q, key);
  }

  /** A branch's contents with item `i` and the child before it replaced. */
  lemma {:induction false} SlotWalk<T>(n: Node<T>, i: nat, c: Node<T>, y: T)
    requires n.Branch? && |n.children| == |n.items| + 1 && i < |n.items|
    ensures var xs, ws := n.items, Walks(n.children);
      Walk(n.(items := xs[i := y], children := n.children[i := c])) ==
      Before(xs, ws, i) + Walk(c) + [y] + Flat(xs[i + 1..], ws[i + 1..])
  {
    var xs, ws := n.items, Walks(n.children);
    var xs2, ws2 := xs[i := y], ws[i := Walk(c)];
    assert Walks(n.children[i := c]) == ws2;
    Around(xs2, ws2, i);
    assert xs2[..i] == xs[..i] && ws2[..i] == ws[..i];
    assert xs2[i + 1..] == xs[i + 1..] && ws2[i + 1..] == ws[i + 1..];
  }

  /** Deleting `key` below child `i`, where the search for `key` leads. */
  lemma {:induction false} DeletedBelow<T>(o: Order<T>, n: Node<T>, i: nat, key: T, c: Node<T>, p: Option<T>)
    requires n.Branch? && |n.children| == |n.items| + 1 && Ascending(o, Walk(n))
    requires i == LowerBound(o, n.items, key) && !Holds(o, n.items, key)
    requires Ascending(o, n.items) && i <= |n.items|
    requires Ascending(o, Walk(n.children[i]))
    requires p == Lookup(o, Walk(n.children[i]), key)
    requires Walk(c) == Removed(o, Walk(n.children[i]), key)
    ensures var m := n.(children := n.children[i := c], count := if p.Some? then n.count - 1 else n.count);
      p == Lookup(o, Walk(n), key) && Walk(m) == Removed(o, Walk(n), key)
  {
    var m := n.(children := n.children[i := c], count := if p.Some? then n.count - 1 else n.count);
    var ws := Walks(n.children);
    Straddles(o, n, i, key);
    BranchAround(n, i, c);
    assert Walk(m) == Walk(n.(children := n.children[i := c]));
    RemovedInside(o, Before(n.items, ws, i), ws[i], After(n.items, ws, i), key);
  }

  /** delete: removes from the subtree `n` its maximum when `max`, and otherwise the
      item equivalent to `key`, returning the removed item. A node on the way down
      that another tree shares is copied first. A child left with fewer than `min`
      items is rebalanced, so only the top node may end up one item short. */
  method Delete<T>(cfg: Config<T>, n: Node<T>, max: bool, key: T, hint: PathHint?, depth: nat,
                   ghost h: nat, ghost lo: int)
    returns (r: Node<T>, prev: Option<T>)
    requires ValidConfig(cfg) && Wf(cfg, n, h, lo) && lo >= 1
    requires hint != null ==> hint.Valid()
    modifies HintFrame(hint)
    decreases h, 1
    ensures r.isoid == cfg.isoid
    ensures Shaped(r, h) && Fill(cfg, r, lo - 1) && Ascending(cfg.less, Walk(r))
    ensures prev.None? ==> Fill(cfg, r, lo) && Walk(r) == Walk(n)
    ensures max ==> |Walk(n)| > 0 && prev == Some(Last(Walk(n))) && Walk(r) == Walk(n)[..|Walk(n)| - 1]
    ensures !max ==> prev == Lookup(cfg.less, Walk(n), key) && Walk(r) == Removed(cfg.less, Walk(n), key)
    ensures Owned(r, Some(n), cfg.isoid)
  {
    var m := IsoLoad(cfg, n, true);
    LoadOwned(cfg, n);
    ItemsAscending(cfg.less, m);
    var i: int, found: bool;
    if max {
      i, found := |m.items| - 1, true;
    } else {
      i, found := Find(cfg.less, m, key, hint, depth);
    }
    if m.Leaf? {
      if found {
        prev := Some(m.items[i]);
        r := Leaf(m.isoid, m.count - 1, m.items[..i] + m.items[i + 1..]);
        LeafRemoved(cfg, m, lo, i, key, max);
        OwnedNode(r, Some(n), cfg.isoid);
      } else {
        prev, r := None, m;
      }
    } else {
      if found && max {
        r, prev := DeleteLast(cfg, m, key, h, lo);
      } else if found {
        r, prev := DeleteSeparator(cfg, m, i, key, h, lo);
      } else {
        r, prev := DeleteBelow(cfg, m, i, key, hint, depth, h, lo);
      }
      OwnedTrans(r, m, Some(n), cfg.isoid);
    }
  }

  /** The maximum of a branch is the maximum of its last child. */
  method DeleteLast<T>(cfg: Config<T>, m: Node<T>, key: T, ghost h: nat, ghost lo: int)
    returns (r: Node<T>, prev: Option<T>)
    requires ValidConfig(cfg) && Wf(cfg, m, h, lo) && lo >= 1 && m.Branch? && m.isoid == cfg.isoid
    decreases h, 0
    ensures r.isoid == cfg.isoid
    ensures Shaped(r, h) && Fill(cfg, r, lo - 1) && Ascending(cfg.less, Walk(r))
    ensures |Walk(m)| > 0 && prev == Some(Last(Walk(m))) && Walk(r) == Walk(m)[..|Walk(m)| - 1]
    ensures Owned(r, Some(m), cfg.isoid)
  {
    var i := |m.items|;
    ChildWf(cfg, m, h, lo, i);
    WalkCovers(m.children[i], h - 1);
    var c;
    c, prev := Delete(cfg, m.children[i], true, key, null, 0, h - 1, cfg.min);
    var m2 := m.(children := m.children[i := c], count := m.count - 1);
    MaxBelow(m, c, prev);
    DentedAfter(cfg, m, h, lo, i, m2);
    r := Rebalanced(cfg, m2, i, h, lo);
    ChildOwned(m, i, c, m2, r, cfg.isoid);
  }

  /** `r`, built from `m2`, which is `m` with child `i` replaced by one built from
      it, is built from `m`. */
  lemma ChildOwned<T>(m: Node<T>, i: nat, c: Node<T>, m2: Node<T>, r: Node<T>, id: nat)
    requires m.Branch? && i < |m.children| && m2.isoid == id && Owned(c, Some(m.children[i]), id)
    requires m2.Branch? && m2.children == m.children[i := c] && Owned(r, Some(m2), id)
    ensures Owned(r, Some(m), id)
  {
    ChildrenOwned(m, i, c, id);
    OwnedNode(m2, Some(m), id);
    OwnedTrans(r, m2, Some(m), id);
  }

  /** An item found in a branch is replaced by the maximum of the child before it,
      which is deleted there. */
  method DeleteSeparator<T>(cfg: Config<T>, m: Node<T>, i: nat, key: T, ghost h: nat, ghost lo: int)
    returns (r: Node<T>, prev: Option<T>)
    requires ValidConfig(cfg) && Wf(cfg, m, h, lo) && lo >= 1 && m.Branch? && m.isoid == cfg.isoid
    requires i < |m.items| && cfg.less.Equiv(m.items[i], key)
    decreases h, 0
    ensures r.isoid == cfg.isoid
    ensures Shaped(r, h) && Fill(cfg, r, lo - 1) && Ascending(cfg.less, Walk(r))
    ensures prev == Some(m.items[i]) == Lookup(cfg.less, Walk(m), key) && Walk(r) == Removed(cfg.less, Walk(m), key)
    ensures Owned(r, Some(m), cfg.isoid)
  {
    ChildWf(cfg, m, h, lo, i);
    WalkCovers(m.children[i], h - 1);
    prev := Some(m.items[i]);
    var c, maxItem := Delete(cfg, m.children[i], true, key, null, 0, h - 1, cfg.min);
    var m2 := m.(items := m.items[i := maxItem.value], children := m.children[i := c], count := m.count - 1);
    Predecessor(cfg.less, m, i, key, c, maxItem.value);
    DentedAfter(cfg, m, h, lo, i, m2);
    r := Rebalanced(cfg, m2, i, h, lo);
    ChildOwned(m, i, c, m2, r, cfg.isoid);
  }

  /** A key not found in a branch is deleted from the child where the search leads. */
  method DeleteBelow<T>(cfg: Config<T>, m: Node<T>, i: nat, key: T, hint: PathHint?, depth: nat,
                        ghost h: nat, ghost lo: int)
    returns (r: Node<T>, prev: Option<T>)
    requires ValidConfig(cfg) && Wf(cfg, m, h, lo) && lo >= 1 && m.Branch? && m.isoid == cfg.isoid
    requires i == LowerBound(cfg.less, m.items, key) && !Holds(cfg.less, m.items, key)
    requires Ascending(cfg.less, m.items) && i <= |m.items|
    requires hint != null ==> hint.Valid()
    modifies HintFrame(hint)
    decreases h, 0
    ensures r.isoid == cfg.isoid
    ensures Shaped(r, h) && Fill(cfg, r, lo - 1) && Ascending(cfg.less, Walk(r))
    ensures prev.None? ==> Fill(cfg, r, lo) && Walk(r) == Walk(m)
    ensures prev == Lookup(cfg.less, Walk(m), key) && Walk(r) == Removed(cfg.less, Walk(m), key)
    ensures Owned(r, Some(m), cfg.isoid)
  {
    ChildWf(cfg, m, h, lo, i);
    var c;
    c, prev := Delete(cfg, m.children[i], false, key, hint, depth + 1, h - 1, cfg.min);
    DeletedBelow(cfg.less, m, i, key, c, prev);
    if prev.None? {
      r := m.(children := m.children[i := c]);
      DentedAfter(cfg, m, h, lo, i, r);
      OwnedSelf(r, cfg.isoid);
      ChildOwned(m, i, c, r, r, cfg.isoid);
      return;
    }
    var m2 := m.(children := m.children[i := c], count := m.count - 1);
    DentedAfter(cfg, m, h, lo, i, m2);
    r := Rebalanced(cfg, m2, i, h, lo);
    ChildOwned(m, i, c, m2, r, cfg.isoid);
  }

  /** The end of delete in a branch: nodeRebalance when child `i` fell below `min`. */
  method Rebalanced<T>(cfg: Config<T>, m: Node<T>, i: nat, ghost h: nat, ghost lo: int) returns (r: Node<T>)
    requires Dented(cfg, m, i, h, lo) && lo >= 1
    ensures r.isoid == m.isoid && Shaped(r, h) && Fill(cfg, r, lo - 1) && Walk(r) == Walk(m)
    ensures m.isoid == cfg.isoid ==> Owned(r, Some(m), cfg.isoid)
  {
    if |m.children[i].items| < cfg.min {
      r := NodeRebalance(cfg, m, i, h);
    } else {
      r := m;
      OwnedSelf(m, cfg.isoid);
    }
  }
}
