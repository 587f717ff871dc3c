/** Paths from the root of a B-tree down to one of its nodes. `getAt` and `DeleteAt`
    descend by the cached counts; `Load`, `DeleteMin`, `DeleteMax` and `DeleteAt`
    update the counts along their path optimistically and revert them when the
    fast path does not apply (btree/btree.go:750-781, 838-1012). Nodes are values,
    so an update of the nodes along a path is a new root, built by `Along` and
    `Bump` from the old root and the path. */
module BTreePaths {
  import opened Ordering
  import opened BTreeNodes
  import opened BTreeSearch

  // ---------------------------------------------------------------------------
  // Paths

  /** `p` leads down from `n`: every step is taken in a branch of the right arity,
      to one of its children. */
  ghost predicate OnPath<T>(n: Node<T>, p: seq<int>)
    decreases |p|
  {
    p == [] ||
    (n.Branch? && |n.children| == |n.items| + 1 && 0 <= p[0] < |n.children| &&
     OnPath(n.children[p[0]], p[1..]))
  }

  /** The node `p` leads to. */
  ghost function At<T>(n: Node<T>, p: seq<int>): Node<T>
    requires OnPath(n, p)
    decreases |p|
  {
    if p == [] then n else At(n.children[p[0]], p[1..])
  }

  /** The contents of the tree that come before the subtree at the end of `p`. */
  ghost function Pre<T>(n: Node<T>, p: seq<int>): seq<T>
    requires OnPath(n, p)
    decreases |p|
  {
    if p == [] then [] else Before(n.items, Walks(n.children), p[0]) + Pre(n.children[p[0]], p[1..])
  }

  /** The contents of the tree that come after the subtree at the end of `p`. */
  ghost function Post<T>(n: Node<T>, p: seq<int>): seq<T>
    requires OnPath(n, p)
    decreases |p|
  {
    if p == [] then [] else Post(n.children[p[0]], p[1..]) + After(n.items, Walks(n.children), p[0])
  }

  /** The contents of a tree are those before a subtree, the subtree's, and those after. */
  lemma {:induction false} Frame<T>(n: Node<T>, p: seq<int>)
    requires OnPath(n, p)
    ensures Walk(n) == Pre(n, p) + Walk(At(n, p)) + Post(n, p)
    decreases |p|
  {
    if p != [] {
      var i, q := p[0], p[1..];
      var c := n.children[i];
      var ws := Walks(n.children);
      var B, A := Before(n.items, ws, i), After(n.items, ws, i);
      var P, W, Q := Pre(c, q), Walk(At(c, q)), Post(c, q);
      assert Pre(n, p) == B + P && Post(n, p) == Q + A && At(n, p) == At(c, q);
      assert Walk(c) == P + W + Q by {
        Frame(c, q);
      }
      assert Walk(n) == B + Walk(c) + A by {
        BranchAround(n, i, c);
      }
      Nest(B, P, W, Q, A);
    }
  }

  lemma Nest<T>(B: seq<T>, P: seq<T>, W: seq<T>, Q: seq<T>, A: seq<T>)
    ensures B + (P + W + Q) + A == (B + P) + W + (Q + A)
  {
  }

  lemma Middle<T>(B: seq<T>, W: seq<T>, A: seq<T>, k: int)
    requires 0 <= k < |W|
    ensures |B| + k < |B + W + A| && (B + W + A)[|B| + k] == W[k]
  {
  }

  /** One step further down a path. */
  lemma Deeper<T>(n: Node<T>, p: seq<int>, i: int)
    requires OnPath(n, p) && At(n, p).Branch?
    requires |At(n, p).children| == |At(n, p).items| + 1 && 0 <= i < |At(n, p).children|
    ensures OnPath(n, p + [i]) && At(n, p + [i]) == At(n, p).children[i]
    ensures var m := At(n, p); var ws := Walks(m.children);
      Pre(n, p + [i]) == Pre(n, p) + Before(m.items, ws, i) &&
      Post(n, p + [i]) == After(m.items, ws, i) + Post(n, p)
  {
    DeeperAt(n, p, i);
    DeeperPre(n, p, i);
    DeeperPost(n, p, i);
  }

  lemma {:induction false} DeeperAt<T>(n: Node<T>, p: seq<int>, i: int)
    requires OnPath(n, p) && At(n, p).Branch?
    requires |At(n, p).children| == |At(n, p).items| + 1 && 0 <= i < |At(n, p).children|
    ensures OnPath(n, p + [i]) && At(n, p + [i]) == At(n, p).children[i]
    decreases |p|
  {
    if p == [] {
      assert [] + [i] == [i] && [i][1..] == [];
    } else {
      assert (p + [i])[0] == p[0] && (p + [i])[1..] == p[1..] + [i];
      DeeperAt(n.children[p[0]], p[1..], i);
    }
  }

  lemma {:induction false} DeeperPre<T>(n: Node<T>, p: seq<int>, i: int)
    requires OnPath(n, p) && At(n, p).Branch?
    requires |At(n, p).children| == |At(n, p).items| + 1 && 0 <= i < |At(n, p).children|
    ensures OnPath(n, p + [i])
    ensures var m := At(n, p); Pre(n, p + [i]) == Pre(n, p) + Before(m.items, Walks(m.children), i)
    decreases |p|
  {
    DeeperAt(n, p, i);
    if p == [] {
      assert [] + [i] == [i] && [i][1..] == [];
    } else {
      assert (p + [i])[0] == p[0] && (p + [i])[1..] == p[1..] + [i];
      DeeperPre(n.children[p[0]], p[1..], i);
    }
  }

  lemma {:induction false} DeeperPost<T>(n: Node<T>, p: seq<int>, i: int)
    requires OnPath(n, p) && At(n, p).Branch?
    requires |At(n, p).children| == |At(n, p).items| + 1 && 0 <= i < |At(n, p).children|
    ensures OnPath(n, p + [i])
    ensures var m := At(n, p); Post(n, p + [i]) == After(m.items, Walks(m.children), i) + Post(n, p)
    decreases |p|
  {
    DeeperAt(n, p, i);
    if p == [] {
      assert [] + [i] == [i] && [i][1..] == [];
    } else {
      assert (p + [i])[0] == p[0] && (p + [i])[1..] == p[1..] + [i];
      DeeperPost(n.children[p[0]], p[1..], i);
    }
  }

  /** The first child is where the contents start, the last where they end. */
  lemma Ends<T>(xs: seq<T>, ws: seq<seq<T>>)
    requires |ws| == |xs| + 1
    ensures Before(xs, ws, 0) == [] && After(xs, ws, |xs|) == []
  {
  }

  /** The node at the end of a path in a well-shaped tree is well shaped, at the
      height that remains. */
  lemma {:induction false} AtShaped<T>(n: Node<T>, p: seq<int>, h: nat)
    requires Shaped(n, h) && OnPath(n, p)
    ensures |p| <= h && Shaped(At(n, p), h - |p|)
    decreases |p|
  {
    if p != [] {
      AtShaped(n.children[p[0]], p[1..], h - 1);
    }
  }

  /** Below the top, every node on a path of a well-filled tree holds at least `min`
      items. */
  lemma {:induction false} AtFill<T>(cfg: Config<T>, n: Node<T>, p: seq<int>, lo: int)
    requires Fill(cfg, n, lo) && OnPath(n, p)
    ensures Fill(cfg, At(n, p), if p == [] then lo else cfg.min)
    decreases |p|
  {
    if p != [] {
      AtFill(cfg, n.children[p[0]], p[1..], cfg.min);
    }
  }

  // ---------------------------------------------------------------------------
  // Updates along a path

  /** A node with `d` added to its count, holding `items`. */
  function Refilled<T>(n: Node<T>, d: int, items: seq<T>): (r: Node<T>)
    ensures r.isoid == n.isoid && r.count == n.count + d && r.items == items
    ensures r.Leaf? == n.Leaf? && (n.Branch? ==> r.children == n.children)
  {
    n.(count := n.count + d, items := items)
  }

  /** Two nodes that differ at most in their isoid hold the same contents and are as
      well shaped and as well filled as each other. */
  lemma Retagged<T>(cfg: Config<T>, a: Node<T>, b: Node<T>, h: nat, lo: int)
    requires a.Leaf? == b.Leaf? && a.count == b.count && a.items == b.items
    requires a.Branch? ==> a.children == b.children
    ensures Walk(a) == Walk(b)
    ensures Shaped(a, h) <==> Shaped(b, h)
    ensures Fill(cfg, a, lo) <==> Fill(cfg, b, lo)
  {
  }

  /** The pass of the fast paths: every node met along `p` is taken into the tree
      (isoLoad) and `d` is added to its count; the node at the end of `p` then holds
      `items`. */
  function Along<T>(cfg: Config<T>, n: Node<T>, p: seq<int>, d: int, items: seq<T>): (r: Node<T>)
    requires OnPath(n, p)
    ensures r.isoid == cfg.isoid && r.count == n.count + d && r.Leaf? == n.Leaf?
    decreases |p|
  {
    var m := IsoLoad(cfg, n, true);
    if p == [] then Refilled(m, d, items)
    else m.(count := m.count + d, children := m.children[p[0] := Along(cfg, m.children[p[0]], p[1..], d, items)])
  }

  /** The pass writes only to nodes it has taken into the tree: those along `p`
      carry the tree's isoid, and every other node is a subtree of `n`. */
  lemma {:induction false} AlongOwned<T>(cfg: Config<T>, n: Node<T>, p: seq<int>, d: int, items: seq<T>)
    requires OnPath(n, p)
    ensures Owned(Along(cfg, n, p, d, items), Some(n), cfg.isoid)
    decreases |p|
  {
    var r := Along(cfg, n, p, d, items);
    if p == [] {
      if n.Branch? {
        KidsWithin(n, cfg.isoid);
      }
    } else {
      var c := Along(cfg, n.children[p[0]], p[1..], d, items);
      AlongOwned(cfg, n.children[p[0]], p[1..], d, items);
      ChildrenOwned(n, p[0], c, cfg.isoid);
      assert r.children == n.children[p[0] := c];
    }
    OwnedNode(r, Some(n), cfg.isoid);
  }

  /** The revert loops: `d` is added to the count of every node on `p`, the last
      one included. */
  function Bump<T>(n: Node<T>, p: seq<int>, d: int): (r: Node<T>)
    requires OnPath(n, p)
    ensures r.count == n.count + d && r.isoid == n.isoid && r.items == n.items
    decreases |p|
  {
    if p == [] then n.(count := n.count + d)
    else n.(count := n.count + d, children := n.children[p[0] := Bump(n.children[p[0]], p[1..], d)])
  }

  /** A revert along the same path undoes the optimistic count updates: what stays is
      the nodes' being taken into the tree. */
  lemma {:induction false} BumpAlong<T>(cfg: Config<T>, n: Node<T>, p: seq<int>, d: int, items: seq<T>, e: int)
    requires OnPath(n, p)
    ensures OnPath(Along(cfg, n, p, d, items), p)
    ensures Bump(Along(cfg, n, p, d, items), p, e) == Along(cfg, n, p, d + e, items)
    decreases |p|
  {
    if p != [] {
      var m := IsoLoad(cfg, n, true);
      BumpAlong(cfg, m.children[p[0]], p[1..], d, items, e);
      var r := Along(cfg, n, p, d, items);
      assert r.children[p[0]] == Along(cfg, m.children[p[0]], p[1..], d, items);
      assert r.children[p[0] := Bump(r.children[p[0]], p[1..], e)] ==
             m.children[p[0] := Along(cfg, m.children[p[0]], p[1..], d + e, items)];
    }
  }

  /** The contents after a pass: those of the node at the end, now holding `items`,
      between what came before and after it. */
  lemma {:induction false} AlongWalk<T>(cfg: Config<T>, n: Node<T>, p: seq<int>, d: int, items: seq<T>)
    requires OnPath(n, p)
    ensures Walk(Along(cfg, n, p, d, items)) == Pre(n, p) + Walk(Refilled(At(n, p), d, items)) + Post(n, p)
    decreases |p|
  {
    var m := IsoLoad(cfg, n, true);
    var r := Along(cfg, n, p, d, items);
    if p == [] {
      Retagged(cfg, r, Refilled(n, d, items), 0, 0);
    } else {
      var i, q := p[0], p[1..];
      var c := Along(cfg, m.children[i], q, d, items);
      var ws := Walks(n.children);
      var B, A := Before(n.items, ws, i), After(n.items, ws, i);
      var P, W, Q := Pre(n.children[i], q), Walk(Refilled(At(n.children[i], q), d, items)), Post(n.children[i], q);
      assert Pre(n, p) == B + P && Post(n, p) == Q + A && At(n, p) == At(n.children[i], q);
      assert Walk(c) == P + W + Q by {
        AlongWalk(cfg, m.children[i], q, d, items);
      }
      assert Walk(r) == B + Walk(c) + A by {
        BranchAround(n, i, c);
        assert Walk(r) == Walk(n.(children := n.children[i := c]));
      }
      Nest(B, P, W, Q, A);
    }
  }

  /** A pass keeps a tree well shaped when the node at the end stays well shaped. */
  lemma {:induction false} AlongShaped<T>(cfg: Config<T>, n: Node<T>, p: seq<int>, d: int, items: seq<T>, h: nat)
    requires Shaped(n, h) && OnPath(n, p) && |p| <= h
    requires Shaped(Refilled(At(n, p), d, items), h - |p|)
    ensures Shaped(Along(cfg, n, p, d, items), h)
    decreases |p|
  {
    var r := Along(cfg, n, p, d, items);
    if p == [] {
      Retagged(cfg, r, Refilled(n, d, items), h, 0);
    } else {
      var i := p[0];
      var m := IsoLoad(cfg, n, true);
      assert At(n, p) == At(m.children[i], p[1..]);
      AlongShaped(cfg, m.children[i], p[1..], d, items, h - 1);
      AlongCount(cfg, n, p, d, items, h);
      assert forall k :: 0 <= k < |r.children| ==> Shaped(r.children[k], h - 1);
    }
  }

  /** A pass over a well-shaped tree adds `d` to its size when it adds `d` to the size
      of the node at the end. */
  lemma {:induction false} AlongCount<T>(cfg: Config<T>, n: Node<T>, p: seq<int>, d: int, items: seq<T>, h: nat)
    requires Shaped(n, h) && OnPath(n, p) && |p| <= h
    requires Shaped(Refilled(At(n, p), d, items), h - |p|)
    ensures |Walk(Along(cfg, n, p, d, items))| == Along(cfg, n, p, d, items).count
  {
    AtShaped(n, p, h);
    Frame(n, p);
    AlongWalk(cfg, n, p, d, items);
  }

  /** A pass keeps a tree well filled when the node at the end stays well filled. */
  lemma {:induction false} AlongFill<T>(cfg: Config<T>, n: Node<T>, p: seq<int>, d: int, items: seq<T>, lo: int)
    requires Fill(cfg, n, lo) && OnPath(n, p)
    requires Fill(cfg, Refilled(At(n, p), d, items), if p == [] then lo else cfg.min)
    ensures Fill(cfg, Along(cfg, n, p, d, items), lo)
    decreases |p|
  {
    var r := Along(cfg, n, p, d, items);
    if p == [] {
      Retagged(cfg, r, Refilled(n, d, items), 0, lo);
    } else {
      var i := p[0];
      var m := IsoLoad(cfg, n, true);
      assert At(n, p) == At(m.children[i], p[1..]);
      AlongFill(cfg, m.children[i], p[1..], d, items, cfg.min);
      assert forall k :: 0 <= k < |r.children| ==> Fill(cfg, r.children[k], cfg.min);
    }
  }

  /** The fast paths: a pass ending in a leaf that gets `items`, one item more or
      fewer, keeps the tree well formed when the contents stay ascending. */
  lemma {:induction false} LeafEdited<T>(cfg: Config<T>, n: Node<T>, p: seq<int>, h: nat, d: int, items: seq<T>)
    requires Wf(cfg, n, h, 1) && OnPath(n, p) && At(n, p).Leaf?
    requires |items| == |At(n, p).items| + d
    requires (if p == [] then 1 else cfg.min) <= |items| <= cfg.max
    requires Ascending(cfg.less, Pre(n, p) + items + Post(n, p))
    ensures Wf(cfg, Along(cfg, n, p, d, items), h, 1)
    ensures Walk(Along(cfg, n, p, d, items)) == Pre(n, p) + items + Post(n, p)
  {
    var L := Refilled(At(n, p), d, items);
    AtShaped(n, p, h);
    AlongWalk(cfg, n, p, d, items);
    assert Walk(L) == items;
    AlongShaped(cfg, n, p, d, items, h);
    AlongFill(cfg, n, p, d, items, 1);
  }

  /** The fallbacks: a pass whose updates were reverted leaves the tree as it was,
      apart from the nodes taken into it. */
  lemma {:induction false} Reverted<T>(cfg: Config<T>, n: Node<T>, p: seq<int>, h: nat, d: int)
    requires Wf(cfg, n, h, 1) && OnPath(n, p)
    ensures OnPath(Along(cfg, n, p, d, At(n, p).items), p)
    ensures var r := Bump(Along(cfg, n, p, d, At(n, p).items), p, -d);
      Wf(cfg, r, h, 1) && Walk(r) == Walk(n) && r.count == n.count && r.isoid == cfg.isoid
  {
    var L := At(n, p);
    var r := Along(cfg, n, p, 0, L.items);
    BumpAlong(cfg, n, p, d, L.items, -d);
    AtShaped(n, p, h);
    AtFill(cfg, n, p, 1);
    Retagged(cfg, Refilled(L, 0, L.items), L, h - |p|, if p == [] then 1 else cfg.min);
    assert Walk(r) == Walk(n) by {
      Frame(n, p);
      AlongWalk(cfg, n, p, 0, L.items);
    }
    assert Shaped(r, h) by {
      AlongShaped(cfg, n, p, 0, L.items, h);
    }
    assert Fill(cfg, r, 1) by {
      AlongFill(cfg, n, p, 0, L.items, 1);
    }
  }

  // ---------------------------------------------------------------------------
  // Descent by rank

  /** The inner loop of getAt and DeleteAt in a branch: skip whole children, and the
      item after each, while the index lies beyond them. */
  method RankScan<T>(n: Node<T>, idx: int, ghost h: nat) returns (i: int, rest: int, hit: bool)
    requires Shaped(n, h) && n.Branch? && 0 <= idx < |Walk(n)|
    ensures 0 <= i <= |n.items|
    ensures hit ==> i < |n.items| && Walk(n)[idx] == n.items[i]
    ensures !hit ==> 0 <= rest < |Walk(n.children[i])| && idx == |Before(n.items, Walks(n.children), i)| + rest
  {
    ghost var ws := Walks(n.children);
    i, rest, hit := 0, idx, false;
    while i < |n.items|
      invariant 0 <= i <= |n.items|
      invariant 0 <= rest && idx == |Before(n.items, ws, i)| + rest
    {
      if rest < n.children[i].count {
        return;
      } else if rest == n.children[i].count {
        Around(n.items, ws, i);
        hit := true;
        return;
      }
      BeforeNext(n.items, ws, i);
      rest := rest - (n.children[i].count + 1);
      i := i + 1;
    }
    Around(n.items, ws, i);
  }

  lemma BeforeNext<T>(xs: seq<T>, ws: seq<seq<T>>, i: nat)
    requires |ws| == |xs| + 1 && i < |xs|
    ensures Before(xs, ws, i + 1) == Before(xs, ws, i) + ws[i] + [xs[i]]
  {
    assert ws[..i + 1][..i] == ws[..i] && xs[..i + 1][..i] == xs[..i];
  }

  /** The descent of getAt and DeleteAt: down from `root` until the index falls on an
      item of a branch (`hit`, with `idx` that item's position) or inside a leaf (with
      `idx` the position in the leaf). Either way it names the item at `index`. */
  method Locate<T>(root: Node<T>, index: int, ghost h: nat)
    returns (steps: seq<int>, n: Node<T>, idx: int, hit: bool)
    requires Shaped(root, h) && 0 <= index < |Walk(root)|
    ensures OnPath(root, steps) && n == At(root, steps)
    ensures 0 <= idx < |n.items| && Walk(root)[index] == n.items[idx]
    ensures hit ==> n.Branch?
    ensures !hit ==> n.Leaf? && index == |Pre(root, steps)| + idx
  {
    steps, n, idx, hit := [], root, index, false;
    ghost var k: nat := h;
    while n.Branch?
      invariant Located(root, index, steps, n, idx, k) && k + |steps| == h
      decreases k
    {
      var i, rest, found := RankScan(n, idx, k);
      if found {
        return steps, n, i, true;
      }
      Descend(root, index, steps, n, idx, k, i, rest);
      steps, n, idx, k := steps + [i], n.children[i], rest, k - 1;
    }
  }

  /** The state of the descent by rank: `n` is the node at `steps`, of height `k`, and
      the item at `index` of the tree is the item at `idx` below `n`. */
  ghost predicate Located<T>(root: Node<T>, index: int, steps: seq<int>, n: Node<T>, idx: int, k: nat)
  {
    OnPath(root, steps) && n == At(root, steps) && Shaped(n, k) &&
    0 <= idx < |Walk(n)| && 0 <= index < |Walk(root)| &&
    index == |Pre(root, steps)| + idx && Walk(root)[index] == Walk(n)[idx]
  }

  /** The index moves to the child where it falls. */
  lemma {:induction false} Descend<T>(root: Node<T>, index: int, p: seq<int>, n: Node<T>, idx: int, k: nat,
                                      i: int, rest: int)
    requires Located(root, index, p, n, idx, k) && n.Branch? && 0 <= i < |n.children|
    requires 0 <= rest < |Walk(n.children[i])| && idx == |Before(n.items, Walks(n.children), i)| + rest
    ensures k >= 1 && Located(root, index, p + [i], n.children[i], rest, k - 1)
  {
    DeeperAt(root, p, i);
    DeeperPre(root, p, i);
    DescendShaped(n, k, i);
    DescendIndex(n, i, rest);
  }

  lemma DescendShaped<T>(m: Node<T>, h: nat, i: int)
    requires Shaped(m, h) && m.Branch? && 0 <= i < |m.children|
    ensures h >= 1 && Shaped(m.children[i], h - 1)
  {
  }

  lemma DescendIndex<T>(m: Node<T>, i: int, rest: int)
    requires m.Branch? && |m.children| == |m.items| + 1 && 0 <= i < |m.children|
    requires 0 <= rest < |Walk(m.children[i])|
    ensures var k := |Before(m.items, Walks(m.children), i)| + rest;
      k < |Walk(m)| && Walk(m)[k] == Walk(m.children[i])[rest]
  {
    var B, W, A := Before(m.items, Walks(m.children), i), Walk(m.children[i]), After(m.items, Walks(m.children), i);
    assert Walk(m) == B + W + A by {
      BranchAround(m, i, m.children[i]);
    }
    Middle(B, W, A, rest);
  }

  // ---------------------------------------------------------------------------
  // The path DeleteAt records

  /** Go's `[]uint8` entries read back as child indexes. */
  function Widen(path: seq<uint8>): (r: seq<int>)
    ensures |r| == |path| && forall k :: 0 <= k < |path| ==> r[k] == path[k] as int
  {
    seq(|path|, k requires 0 <= k < |path| => path[k] as int)
  }

  /** DeleteAt's record of its descent: the child index at each branch and the
      position it stopped at, each converted with `uint8(...)`. */
  function RecordAsWritten(steps: seq<int>, last: int): (path: seq<uint8>)
    ensures |path| == |steps| + 1
    ensures forall k :: 0 <= k < |steps| ==> path[k] == ToUint8(steps[k])
    ensures path[|steps|] == ToUint8(last)
  {
    seq(|steps|, k requires 0 <= k < |steps| => ToUint8(steps[k])) + [ToUint8(last)]
  }

  /** The revert loop of DeleteAt as written: it adds one to the count of every node
      it meets, following the recorded path entry by entry; the last entry names a
      position in the node it stopped at and is not followed. */
  function RevertAsWritten<T>(n: Node<T>, path: seq<uint8>): (r: Node<T>)
    requires |path| > 0 && OnPath(n, Widen(path[..|path| - 1]))
    ensures r.count == n.count + 1
  {
    Bump(n, Widen(path[..|path| - 1]), 1)
  }

  /** The revert as written goes wrong in a node with more than 256 children: when
      DeleteAt descended into child `k >= 256` of a root whose children are leaves and
      then fell back, the recorded entry `uint8(k)` sends the revert into child
      `k % 256`, which gains one, while child `k` stays one short. The cached counts
      no longer match the contents. */
  lemma RevertAsWrittenMiscounts<T>(cfg: Config<T>, n: Node<T>, k: int, last: int)
    requires ValidConfig(cfg) && cfg.max >= 257 && Wf(cfg, n, 1, 1) && n.Branch? && 256 <= k < |n.children|
    requires |n.children[k].items| == cfg.min
    ensures OnPath(n, [k])
    ensures var dec := Along(cfg, n, [k], -1, n.children[k].items);
      var path := RecordAsWritten([k], last);
      OnPath(dec, Widen(path[..1])) &&
      var r := RevertAsWritten(dec, path);
      r.children[k].count == n.children[k].count - 1 &&
      r.children[k % 256].count == n.children[k % 256].count + 1 &&
      !Shaped(r, 1)
  {
    assert [k][1..] == [];
    var items := n.children[k].items;
    var dec := Along(cfg, n, [k], -1, items);
    var path := RecordAsWritten([k], last);
    var w := k % 256;
    assert ToUint8(k) as int == w;
    assert path[..1] == [ToUint8(k)];
    assert Widen(path[..1]) == [w];
    assert [w][1..] == [];
    var r := RevertAsWritten(dec, path);
    assert r.children == dec.children[w := Bump(dec.children[w], [], 1)];
    assert Shaped(n.children[k], 0);
    assert dec.children[k] == Along(cfg, n.children[k], [], -1, items);
    assert r.children[k] == dec.children[k];
    assert r.children[k].Leaf? && r.children[k].items == items;
  }
}
