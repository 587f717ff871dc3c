/** B-tree nodes, the in-order walk that gives their abstract contents, and the
    structural invariants every node of a tree keeps (btree/btree.go:12-31). */
module BTreeNodes {
  import opened Ordering

  /** A node. A leaf has no children; a branch with `k` items has `k + 1` children.
      `isoid` tags the tree that owns the node (copy-on-write); `count` caches the
      number of items in the subtree. Nodes are values: an operation that changes a
      node returns the new node, which the caller stores in the slot it came from. */
  datatype Node<T> =
    | Leaf(isoid: nat, count: int, items: seq<T>)
    | Branch(isoid: nat, count: int, items: seq<T>, children: seq<Node<T>>)

  /** The fields of the tree that the node-level operations read: its isoid, the
      fill bounds and the comparator. */
  datatype Config<-T> = Config(isoid: nat, min: int, max: int, less: Order<T>)

  /** The bounds `degreeToMinMax` produces: an odd maximum of at least 3 items and a
      minimum of half of it, rounded down. */
  predicate ValidConfig<T>(cfg: Config<T>) {
    cfg.max >= 3 && cfg.max % 2 == 1 && cfg.min == cfg.max / 2
  }

  /** degreeToMinMax: a degree of 0 or less means 32, a degree of 1 means 2. */
  function DegreeToMinMax(degree: int): (r: (int, int))
    ensures degree <= 0 ==> r == (31, 63)
    ensures degree == 1 ==> r == (1, 3)
    ensures degree >= 2 ==> r.1 + 1 == 2 * degree
    ensures r.1 >= 3 && r.1 % 2 == 1 && r.0 == r.1 / 2
    ensures r.1 + 1 == 2 * (r.0 + 1)
  {
    var deg := if degree <= 0 then 32 else if degree == 1 then 2 else degree;
    var max := deg * 2 - 1;
    (max / 2, max)
  }

  // ---------------------------------------------------------------------------
  // In-order contents

  /** The items of the subtree in order. */
  ghost function Walk<T>(n: Node<T>): seq<T>
    decreases n
  {
    match n
    case Leaf(_, _, items) => items
    case Branch(_, _, items, children) =>
      if |children| == |items| + 1 then Flat(items, Walks(children)) else []
  }

  ghost function Walks<T>(cs: seq<Node<T>>): (ws: seq<seq<T>>)
    ensures |ws| == |cs|
    decreases cs
  {
    seq(|cs|, i requires 0 <= i < |cs| => Walk(cs[i]))
  }

  /** `ws[0] + [xs[0]] + ... + ws[k-1] + [xs[k-1]]`. */
  ghost function Pairs<T>(ws: seq<seq<T>>, xs: seq<T>): seq<T>
    requires |ws| == |xs|
  {
    if xs == [] then []
    else Pairs(ws[..|xs| - 1], xs[..|xs| - 1]) + ws[|xs| - 1] + [xs[|xs| - 1]]
  }

  /** Children's contents interleaved with the separating items. */
  ghost function Flat<T>(xs: seq<T>, ws: seq<seq<T>>): seq<T>
    requires |ws| == |xs| + 1
  {
    Pairs(ws[..|xs|], xs) + ws[|xs|]
  }

  ghost function SumLens<T>(ws: seq<seq<T>>): nat {
    if ws == [] then 0 else SumLens(ws[..|ws| - 1]) + |ws[|ws| - 1]|
  }

  /** The sum of the cached counts of `cs`. */
  function SumCounts<T>(cs: seq<Node<T>>): int {
    if cs == [] then 0 else SumCounts(cs[..|cs| - 1]) + cs[|cs| - 1].count
  }

  // ---------------------------------------------------------------------------
  // Invariants

  /** Height `h`, `len(items) + 1` children in a branch, all leaves at depth `h`,
      and a `count` that is the number of items in the subtree. */
  ghost predicate Shaped<T>(n: Node<T>, h: nat)
    decreases n
  {
    n.count == |Walk(n)| &&
    match n
    case Leaf(_, _, _) => h == 0
    case Branch(_, _, items, children) =>
      h > 0 && |children| == |items| + 1 &&
      forall i :: 0 <= i < |children| ==> Shaped(children[i], h - 1)
  }

  /** The top node holds between `lo` and `max` items, every other node between
      `min` and `max`. */
  ghost predicate Fill<T>(cfg: Config<T>, n: Node<T>, lo: int)
    decreases n
  {
    lo <= |n.items| <= cfg.max &&
    (n.Branch? ==> forall i :: 0 <= i < |n.children| ==> Fill(cfg, n.children[i], cfg.min))
  }

  /** A well-formed subtree of height `h` whose top node holds at least `lo` items. */
  ghost predicate Wf<T>(cfg: Config<T>, n: Node<T>, h: nat, lo: int) {
    Shaped(n, h) && Fill(cfg, n, lo) && Ascending(cfg.less, Walk(n))
  }

  // ---------------------------------------------------------------------------
  // Children

  /** A branch rebuilt from well-formed children, with the contents and count it
      had, is well formed again. */
  lemma {:induction false} Reassembled<T>(cfg: Config<T>, r: Node<T>, h: nat, lo: int)
    requires r.Branch? && r.count == |Walk(r)|
    requires |r.children| == |r.items| + 1 && lo <= |r.items| <= cfg.max && h > 0 && Kids(cfg, r.children, h - 1)
    ensures Shaped(r, h) && Fill(cfg, r, lo)
  {
  }

  /** Well-formed, well-filled subtrees of height `h`. */
  ghost predicate Kids<T>(cfg: Config<T>, cs: seq<Node<T>>, h: nat) {
    forall k :: 0 <= k < |cs| ==> Shaped(cs[k], h) && Fill(cfg, cs[k], cfg.min)
  }

  lemma {:induction false} KidsOf<T>(cfg: Config<T>, n: Node<T>, h: nat, lo: int)
    requires n.Branch? && Shaped(n, h) && Fill(cfg, n, lo)
    ensures h > 0 && Kids(cfg, n.children, h - 1)
  {
  }

  lemma {:induction false} KidsJoin<T>(cfg: Config<T>, a: seq<Node<T>>, b: seq<Node<T>>, h: nat)
    requires Kids(cfg, a, h) && Kids(cfg, b, h)
    ensures Kids(cfg, a + b, h)
  {
    forall k | 0 <= k < |a + b| ensures Shaped((a + b)[k], h) && Fill(cfg, (a + b)[k], cfg.min) {
      if k >= |a| {
        assert (a + b)[k] == b[k - |a|];
      }
    }
  }

  lemma {:induction false} KidsSlice<T>(cfg: Config<T>, a: seq<Node<T>>, lo: nat, hi: nat, h: nat)
    requires Kids(cfg, a, h) && lo <= hi <= |a|
    ensures Kids(cfg, a[lo..hi], h)
  {
    forall k | 0 <= k < hi - lo ensures Shaped(a[lo..hi][k], h) && Fill(cfg, a[lo..hi][k], cfg.min) {
      assert a[lo..hi][k] == a[lo + k];
    }
  }

  lemma {:induction false} KidsReplace<T>(cfg: Config<T>, cs: seq<Node<T>>, i: nat, c: Node<T>, h: nat)
    requires Kids(cfg, cs, h) && i < |cs| && Shaped(c, h) && Fill(cfg, c, cfg.min)
    ensures Kids(cfg, cs[i := c], h)
  {
    var cs2 := cs[i := c];
    forall k | 0 <= k < |cs2| ensures Shaped(cs2[k], h) && Fill(cfg, cs2[k], cfg.min) {
      if k != i {
        assert cs2[k] == cs[k];
      }
    }
  }

  /** A well-filled node of height `h` built from well-formed children. */
  lemma {:induction false} Rebuilt<T>(cfg: Config<T>, M: Node<T>, h: nat)
    requires M.count == |Walk(M)| && cfg.min <= |M.items| <= cfg.max && (M.Leaf? <==> h == 0)
    requires M.Branch? ==> |M.children| == |M.items| + 1 && Kids(cfg, M.children, h - 1)
    ensures Shaped(M, h) && Fill(cfg, M, cfg.min)
  {
  }

  // ---------------------------------------------------------------------------
  // Copy-on-write

  /** copy: the same node, tagged with the tree's isoid. */
  function Copy<T>(cfg: Config<T>, n: Node<T>): (r: Node<T>)
    ensures r.isoid == cfg.isoid && r.count == n.count && r.items == n.items
    ensures r.Leaf? == n.Leaf? && (n.Branch? ==> r.children == n.children)
    ensures Walk(r) == Walk(n)
    ensures forall h :: Shaped(n, h) ==> Shaped(r, h)
    ensures forall lo :: Fill(cfg, n, lo) ==> Fill(cfg, r, lo)
    ensures forall h, lo :: Wf(cfg, n, h, lo) ==> Wf(cfg, r, h, lo)
  {
    n.(isoid := cfg.isoid)
  }

  /** isoLoad: with `mut`, a node owned by another tree is replaced by a copy owned
      by this one; otherwise the node is used as it is. */
  function IsoLoad<T>(cfg: Config<T>, n: Node<T>, mut: bool): (r: Node<T>)
    ensures mut ==> r.isoid == cfg.isoid
    ensures !mut || n.isoid == cfg.isoid ==> r == n
    ensures r.count == n.count && r.items == n.items
    ensures r.Leaf? == n.Leaf? && (n.Branch? ==> r.children == n.children)
    ensures Walk(r) == Walk(n)
    ensures forall h :: Shaped(n, h) ==> Shaped(r, h)
    ensures forall lo :: Fill(cfg, n, lo) ==> Fill(cfg, r, lo)
    ensures forall h, lo :: Wf(cfg, n, h, lo) ==> Wf(cfg, r, h, lo)
  {
    if mut && n.isoid != cfg.isoid then Copy(cfg, n) else n
  }

  // ---------------------------------------------------------------------------
  // Ownership

  /** `s` is `n` or a subtree somewhere below it. */
  ghost predicate Within<T>(s: Node<T>, n: Node<T>)
    decreases n
  {
    s == n || (n.Branch? && exists k :: 0 <= k < |n.children| && Within(s, n.children[k]))
  }

  /** The discipline of copy-on-write, between a subtree `r` a tree has built and
      the root `o` it started from: every node of `r` either is a subtree of `o`,
      shared and left exactly as it was, or carries the tag `id` of the tree, with
      children that are again of one of the two kinds. A tree writes only to the
      nodes it owns. */
  ghost predicate Owned<T>(r: Node<T>, o: Option<Node<T>>, id: nat)
    decreases r, 3
  {
    Sealed(r, o, id, 2)
  }

  /** `Owned` behind `depth` more layers of definition, so that a fact `Owned(r, o,
      id)` stays closed in a proof that only passes it on; `OwnedOpen` and
      `OwnedClose` state what it says. */
  ghost predicate Sealed<T>(r: Node<T>, o: Option<Node<T>>, id: nat, depth: nat)
    decreases r, depth
  {
    if depth > 0 then Sealed(r, o, id, depth - 1)
    else
      (o.Some? && Within(r, o.value)) ||
      (r.isoid == id && (r.Branch? ==> forall k :: 0 <= k < |r.children| ==> Owned(r.children[k], o, id)))
  }

  lemma OwnedOpen<T>(r: Node<T>, o: Option<Node<T>>, id: nat)
    requires Owned(r, o, id)
    ensures (o.Some? && Within(r, o.value)) ||
      (r.isoid == id && (r.Branch? ==> forall k :: 0 <= k < |r.children| ==> Owned(r.children[k], o, id)))
  {
    assert Sealed(r, o, id, 1) && Sealed(r, o, id, 0);
  }

  lemma OwnedClose<T>(r: Node<T>, o: Option<Node<T>>, id: nat)
    requires (o.Some? && Within(r, o.value)) ||
      (r.isoid == id && (r.Branch? ==> forall k :: 0 <= k < |r.children| ==> Owned(r.children[k], o, id)))
    ensures Owned(r, o, id)
  {
    assert Sealed(r, o, id, 0) && Sealed(r, o, id, 1);
  }

  /** Every node of `n` carries a tag below `id`. */
  ghost predicate TagsBelow<T>(n: Node<T>, id: nat)
    decreases n
  {
    n.isoid < id && (n.Branch? ==> forall k :: 0 <= k < |n.children| ==> TagsBelow(n.children[k], id))
  }

  lemma WithinChild<T>(n: Node<T>, k: int)
    requires n.Branch? && 0 <= k < |n.children|
    ensures Within(n.children[k], n)
  {
    assert Within(n.children[k], n.children[k]);
  }

  lemma WithinGrandchild<T>(n: Node<T>, j: int, k: int)
    requires n.Branch? && 0 <= j < |n.children| && n.children[j].Branch? && 0 <= k < |n.children[j].children|
    ensures Within(n.children[j].children[k], n)
  {
    WithinChild(n.children[j], k);
    assert Within(n.children[j].children[k], n.children[j]);
  }

  lemma {:induction false} WithinTrans<T>(s: Node<T>, m: Node<T>, n: Node<T>)
    requires Within(s, m) && Within(m, n)
    ensures Within(s, n)
    decreases n
  {
    if m != n {
      var k :| 0 <= k < |n.children| && Within(m, n.children[k]);
      WithinTrans(s, m, n.children[k]);
    }
  }

  /** What lies below a node built under the discipline was built under it too. */
  lemma {:induction false} OwnedWithin<T>(s: Node<T>, m: Node<T>, o: Option<Node<T>>, id: nat)
    requires Owned(m, o, id) && Within(s, m)
    ensures Owned(s, o, id)
    decreases m
  {
    OwnedOpen(m, o, id);
    if s == m {
    } else if o.Some? && Within(m, o.value) {
      WithinTrans(s, m, o.value);
      OwnedClose(s, o, id);
    } else {
      var k :| 0 <= k < |m.children| && Within(s, m.children[k]);
      OwnedWithin(s, m.children[k], o, id);
    }
  }

  /** Two steps under the discipline are one: `r` built from `m`, itself built from
      the root `o`, is built from `o`. */
  lemma {:induction false} OwnedTrans<T>(r: Node<T>, m: Node<T>, o: Option<Node<T>>, id: nat)
    requires Owned(r, Some(m), id) && Owned(m, o, id)
    ensures Owned(r, o, id)
    decreases r
  {
    OwnedOpen(r, Some(m), id);
    if Within(r, m) {
      OwnedWithin(r, m, o, id);
    } else {
      if r.Branch? {
        forall k | 0 <= k < |r.children| ensures Owned(r.children[k], o, id) {
          OwnedTrans(r.children[k], m, o, id);
        }
      }
      OwnedClose(r, o, id);
    }
  }

  /** A node is built from itself: every node of it is a subtree of it. */
  lemma OwnedSelf<T>(n: Node<T>, id: nat)
    ensures Owned(n, Some(n), id)
  {
    assert Within(n, n);
    OwnedClose(n, Some(n), id);
  }

  /** A subtree built from child `k` of `n` is built from `n`. */
  lemma OwnedBelow<T>(c: Node<T>, n: Node<T>, k: int, id: nat)
    requires n.Branch? && 0 <= k < |n.children| && Owned(c, Some(n.children[k]), id)
    ensures Owned(c, Some(n), id)
  {
    WithinChild(n, k);
    OwnedClose(n.children[k], Some(n), id);
    OwnedTrans(c, n.children[k], Some(n), id);
  }

  /** A node of the tree built from `o` carries the tree's tag or one of `o`'s, so
      when every tag of `o` is at most `id`, so is every tag of the node. */
  lemma {:induction false} TagsOwned<T>(r: Node<T>, o: Option<Node<T>>, id: nat)
    requires Owned(r, o, id) && (o.Some? ==> TagsBelow(o.value, id + 1))
    ensures TagsBelow(r, id + 1)
    decreases r
  {
    OwnedOpen(r, o, id);
    if o.Some? && Within(r, o.value) {
      TagsWithin(r, o.value, id + 1);
    } else if r.Branch? {
      forall k | 0 <= k < |r.children| ensures TagsBelow(r.children[k], id + 1) {
        TagsOwned(r.children[k], o, id);
      }
    }
  }

  lemma {:induction false} TagsWithin<T>(s: Node<T>, n: Node<T>, id: nat)
    requires TagsBelow(n, id) && Within(s, n)
    ensures TagsBelow(s, id)
    decreases n
  {
    if s != n {
      var k :| 0 <= k < |n.children| && Within(s, n.children[k]);
      TagsWithin(s, n.children[k], id);
    }
  }

  lemma {:induction false} TagsRaised<T>(n: Node<T>, id: nat, id2: nat)
    requires TagsBelow(n, id) && id <= id2
    ensures TagsBelow(n, id2)
    decreases n
  {
    if n.Branch? {
      forall k | 0 <= k < |n.children| ensures TagsBelow(n.children[k], id2) {
        TagsRaised(n.children[k], id, id2);
      }
    }
  }

  /** isoLoad with `mut` gives a node the tree owns, over the same children. */
  lemma LoadOwned<T>(cfg: Config<T>, n: Node<T>)
    ensures Owned(IsoLoad(cfg, n, true), Some(n), cfg.isoid)
  {
    assert Within(n, n);
    OwnedClose(n, Some(n), cfg.isoid);
    if n.Branch? {
      forall k | 0 <= k < |n.children| ensures Owned(n.children[k], Some(n), cfg.isoid) {
        WithinChild(n, k);
        OwnedClose(n.children[k], Some(n), cfg.isoid);
      }
    }
    OwnedClose(IsoLoad(cfg, n, true), Some(n), cfg.isoid);
  }

  /** Every node of `cs` is built from `o` under the discipline. */
  ghost predicate KidsOwned<T>(cs: seq<Node<T>>, o: Option<Node<T>>, id: nat) {
    forall k :: 0 <= k < |cs| ==> Owned(cs[k], o, id)
  }

  /** A node tagged by the tree, whose children are built from `o`, is built from `o`. */
  lemma OwnedNode<T>(r: Node<T>, o: Option<Node<T>>, id: nat)
    requires r.isoid == id && (r.Branch? ==> KidsOwned(r.children, o, id))
    ensures Owned(r, o, id)
  {
    OwnedClose(r, o, id);
  }

  /** The children of `n`, with child `i` replaced by one built from it, are all
      built from `n`. */
  lemma ChildrenOwned<T>(n: Node<T>, i: int, c: Node<T>, id: nat)
    requires n.Branch? && 0 <= i < |n.children| && Owned(c, Some(n.children[i]), id)
    ensures KidsOwned(n.children[i := c], Some(n), id)
  {
    OwnedBelow(c, n, i, id);
    forall k | 0 <= k < |n.children| && k != i ensures Owned(n.children[k], Some(n), id) {
      WithinChild(n, k);
      OwnedClose(n.children[k], Some(n), id);
    }
  }

  /** A run of nodes built from `o` holds only nodes built from `o`. */
  lemma KidsOwnedSlice<T>(cs: seq<Node<T>>, a: int, b: int, o: Option<Node<T>>, id: nat)
    requires KidsOwned(cs, o, id) && 0 <= a <= b <= |cs|
    ensures KidsOwned(cs[a..b], o, id)
  {
    forall k | 0 <= k < b - a ensures Owned(cs[a..b][k], o, id) {
      assert cs[a..b][k] == cs[a + k];
    }
  }

  lemma KidsOwnedJoin<T>(a: seq<Node<T>>, b: seq<Node<T>>, o: Option<Node<T>>, id: nat)
    requires KidsOwned(a, o, id) && KidsOwned(b, o, id)
    ensures KidsOwned(a + b, o, id)
  {
    forall k | 0 <= k < |a + b| ensures Owned((a + b)[k], o, id) {
      if k >= |a| {
        assert (a + b)[k] == b[k - |a|];
      }
    }
  }

  lemma KidsOwnedUpdate<T>(cs: seq<Node<T>>, i: int, x: Node<T>, o: Option<Node<T>>, id: nat)
    requires KidsOwned(cs, o, id) && 0 <= i < |cs| && Owned(x, o, id)
    ensures KidsOwned(cs[i := x], o, id)
  {
  }

  /** The children of child `j` of `n` are subtrees of `n`. */
  lemma GrandkidsWithin<T>(n: Node<T>, j: int, id: nat)
    requires n.Branch? && 0 <= j < |n.children| && n.children[j].Branch?
    ensures KidsOwned(n.children[j].children, Some(n), id)
  {
    forall k | 0 <= k < |n.children[j].children| ensures Owned(n.children[j].children[k], Some(n), id) {
      WithinGrandchild(n, j, k);
      OwnedClose(n.children[j].children[k], Some(n), id);
    }
  }

  /** The children of `n` are all built from `n`, being subtrees of it. */
  lemma KidsWithin<T>(n: Node<T>, id: nat)
    requires n.Branch?
    ensures KidsOwned(n.children, Some(n), id)
  {
    forall k | 0 <= k < |n.children| ensures Owned(n.children[k], Some(n), id) {
      WithinChild(n, k);
      OwnedClose(n.children[k], Some(n), id);
    }
  }

  // ---------------------------------------------------------------------------
  // The algebra of the in-order walk

  lemma {:induction false} PairsAppend<T>(a: seq<seq<T>>, c: seq<T>, b: seq<seq<T>>, d: seq<T>)
    requires |a| == |c| && |b| == |d|
    ensures Pairs(a + b, c + d) == Pairs(a, c) + Pairs(b, d)
    decreases |d|
  {
    if d == [] {
      assert a + b == a && c + d == c;
    } else {
      var k := |d| - 1;
      assert (a + b)[..|c + d| - 1] == a + b[..k];
      assert (c + d)[..|c + d| - 1] == c + d[..k];
      PairsAppend(a, c, b[..k], d[..k]);
    }
  }

  lemma {:induction false} PairsLen<T>(ws: seq<seq<T>>, xs: seq<T>)
    requires |ws| == |xs|
    ensures |Pairs(ws, xs)| == |xs| + SumLens(ws)
    decreases |xs|
  {
    if xs != [] {
      PairsLen(ws[..|xs| - 1], xs[..|xs| - 1]);
    }
  }

  lemma FlatLen<T>(xs: seq<T>, ws: seq<seq<T>>)
    requires |ws| == |xs| + 1
    ensures |Flat(xs, ws)| == |xs| + SumLens(ws)
  {
    PairsLen(ws[..|xs|], xs);
    assert ws[..|xs| + 1][..|xs|] == ws[..|xs|];
    assert ws[..|xs| + 1] == ws;
  }

  /** Splitting a node's contents at item `i` (what `nodeSplit` does). */
  lemma FlatSplit<T>(xs: seq<T>, ws: seq<seq<T>>, i: nat)
    requires |ws| == |xs| + 1 && i < |xs|
    ensures Flat(xs, ws) == Flat(xs[..i], ws[..i + 1]) + [xs[i]] + Flat(xs[i + 1..], ws[i + 1..])
  {
    var m := |xs|;
    assert ws[..m] == ws[..i] + ([ws[i]] + ws[i + 1..m]);
    assert xs == xs[..i] + ([xs[i]] + xs[i + 1..]);
    PairsAppend(ws[..i], xs[..i], [ws[i]] + ws[i + 1..m], [xs[i]] + xs[i + 1..]);
    PairsAppend([ws[i]], [xs[i]], ws[i + 1..m], xs[i + 1..]);
    assert Pairs([ws[i]], [xs[i]]) == ws[i] + [xs[i]];
    assert ws[..i + 1][..i] == ws[..i];
    assert ws[i + 1..][..m - (i + 1)] == ws[i + 1..m];
  }

  /** The contents of the children before child `i`, with their separators. */
  ghost function Before<T>(xs: seq<T>, ws: seq<seq<T>>, i: nat): seq<T>
    requires |ws| == |xs| + 1 && i <= |xs|
  {
    Pairs(ws[..i], xs[..i])
  }

  /** The contents after child `i`, starting with its right separator. */
  ghost function After<T>(xs: seq<T>, ws: seq<seq<T>>, i: nat): seq<T>
    requires |ws| == |xs| + 1 && i <= |xs|
  {
    if i == |xs| then [] else [xs[i]] + Flat(xs[i + 1..], ws[i + 1..])
  }

  /** A node's contents around its child `i`. */
  lemma Around<T>(xs: seq<T>, ws: seq<seq<T>>, i: nat)
    requires |ws| == |xs| + 1 && i <= |xs|
    ensures Flat(xs, ws) == Before(xs, ws, i) + ws[i] + After(xs, ws, i)
    ensures i > 0 ==> Before(xs, ws, i) != [] && Before(xs, ws, i)[|Before(xs, ws, i)| - 1] == xs[i - 1]
    ensures i < |xs| ==> After(xs, ws, i) != [] && After(xs, ws, i)[0] == xs[i]
  {
    assert ws[..i + 1][..i] == ws[..i];
    if i < |xs| {
      FlatSplit(xs, ws, i);
      assert Flat(xs[..i], ws[..i + 1]) == Before(xs, ws, i) + ws[i];
    } else {
      assert xs[..i] == xs;
    }
  }

  /** The parts around child `i` do not depend on child `i`. */
  lemma AroundReplace<T>(xs: seq<T>, ws: seq<seq<T>>, i: nat, w: seq<T>)
    requires |ws| == |xs| + 1 && i <= |xs|
    ensures Before(xs, ws[i := w], i) == Before(xs, ws, i)
    ensures After(xs, ws[i := w], i) == After(xs, ws, i)
  {
    assert ws[i := w][..i] == ws[..i];
    assert ws[i := w][i + 1..] == ws[i + 1..];
  }

  lemma WalksTake<T>(cs: seq<Node<T>>, k: nat)
    requires k <= |cs|
    ensures Walks(cs[..k]) == Walks(cs)[..k]
  {
  }

  lemma WalksDrop<T>(cs: seq<Node<T>>, k: nat)
    requires k <= |cs|
    ensures Walks(cs[k..]) == Walks(cs)[k..]
  {
  }

  lemma WalksReplace<T>(cs: seq<Node<T>>, i: nat, c: Node<T>)
    requires i < |cs|
    ensures Walks(cs[i := c]) == Walks(cs)[i := Walk(c)]
  {
  }

  /** A branch's contents around its child `i`, and what replacing that child does. */
  lemma BranchAround<T>(n: Node<T>, i: nat, c: Node<T>)
    requires n.Branch? && |n.children| == |n.items| + 1 && i <= |n.items|
    ensures Walk(n) == Before(n.items, Walks(n.children), i) + Walk(n.children[i]) + After(n.items, Walks(n.children), i)
    ensures Walk(n.(children := n.children[i := c])) ==
      Before(n.items, Walks(n.children), i) + Walk(c) + After(n.items, Walks(n.children), i)
  {
    var ws := Walks(n.children);
    Around(n.items, ws, i);
    WalksReplace(n.children, i, c);
    Around(n.items, ws[i := Walk(c)], i);
    AroundReplace(n.items, ws, i, Walk(c));
  }

  /** Replacing a child by one with the same contents keeps the node's contents. */
  lemma BranchReplaceSame<T>(n: Node<T>, i: nat, c: Node<T>)
    requires n.Branch? && |n.children| == |n.items| + 1 && i <= |n.items|
    requires Walk(c) == Walk(n.children[i])
    ensures Walk(n.(children := n.children[i := c])) == Walk(n)
  {
    BranchAround(n, i, c);
  }

  lemma {:induction false} PairsHas<T>(ws: seq<seq<T>>, xs: seq<T>, i: nat)
    requires |ws| == |xs| && i < |xs|
    ensures xs[i] in Pairs(ws, xs)
    decreases |xs|
  {
    if i < |xs| - 1 {
      PairsHas(ws[..|xs| - 1], xs[..|xs| - 1], i);
    }
  }

  /** The items of a node are in ascending order when its contents are. */
  lemma ItemsAscending<T>(o: Order<T>, n: Node<T>)
    requires n.Leaf? || |n.children| == |n.items| + 1
    requires Ascending(o, Walk(n))
    ensures Ascending(o, n.items)
  {
    if n.Branch? {
      var xs, ws := n.items, Walks(n.children);
      forall i, j | 0 <= i < j < |xs| ensures o.Lt(xs[i], xs[j]) {
        Around(xs, ws, j);
        var B, A := Before(xs, ws, j), After(xs, ws, j);
        PairsHas(ws[..j], xs[..j], i);
        var p :| 0 <= p < |B| && B[p] == xs[i];
        assert (B + ws[j] + A)[p] == xs[i];
        assert (B + ws[j] + A)[|B| + |ws[j]|] == xs[j];
      }
    }
  }
}
