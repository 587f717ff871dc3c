/** The read-only traversals of a B-tree node: nodeScan, nodeReverse, nodeAscend,
    nodeDescend and nodeItems (btree/btree.go:371-392, 628-656, 676-702, 722-748,
    1134-1145). Each offers items to a visitor that can stop it; each is specified by
    the sequence it offers, a slice of the node's in-order contents or its reverse,
    through `Visit`. The visitor's calls are returned as `shown`, in the order made. */
module BTreeScans {
  import opened Ordering
  import opened BTreeNodes
  import opened BTreeSearch
  import opened BTreePaths

  // ---------------------------------------------------------------------------
  // Visiting in pieces
  //
  // A traversal that must offer `offer` has shown `shown` so far, all of which went
  // through, and has `rest` left. It goes on by one item or by one child's whole
  // traversal.

  /** The state of a traversal that has not been stopped. */
  ghost predicate Going<T>(iter: (seq<T>, T) -> bool, seen: seq<T>, offer: seq<T>, shown: seq<T>, rest: seq<T>) {
    offer == shown + rest && Visit(iter, seen, shown) == Trace(shown, true)
  }

  /** Nothing shown yet, everything left. */
  lemma GoStart<T>(iter: (seq<T>, T) -> bool, seen: seq<T>, offer: seq<T>)
    ensures Going(iter, seen, offer, [], offer)
  {
    EmptyLeft(offer);
  }

  /** Offering one item next: the visitor's answer decides whether to go on. */
  lemma GoItem<T>(iter: (seq<T>, T) -> bool, seen: seq<T>, offer: seq<T>, shown: seq<T>, x: T, rest: seq<T>)
    requires Going(iter, seen, offer, shown, [x] + rest)
    ensures iter(seen + shown, x) ==> Going(iter, seen, offer, shown + [x], rest)
    ensures !iter(seen + shown, x) ==> Visit(iter, seen, offer) == Trace(shown + [x], false)
  {
    assert Visit(iter, seen + shown, [x]) == Trace([x], iter(seen + shown, x)) by {
      assert [x][1..] == [];
    }
    GoChild(iter, seen, offer, shown, [x], rest, Visit(iter, seen + shown, [x]));
  }

  /** Offering the contents `c` of a child next, through a traversal that showed
      `t.visited`: either all of `c` went through, or the whole traversal stops. */
  lemma GoChild<T>(iter: (seq<T>, T) -> bool, seen: seq<T>, offer: seq<T>, shown: seq<T>, c: seq<T>, rest: seq<T>,
                   t: Trace<T>)
    requires Going(iter, seen, offer, shown, c + rest)
    requires t == Visit(iter, seen + shown, c)
    ensures t.more ==> t.visited == c && Going(iter, seen, offer, shown + c, rest)
    ensures !t.more ==> Visit(iter, seen, offer) == Trace(shown + t.visited, false)
  {
    Assoc(shown, c, rest);
    VisitThen(iter, seen, shown, c);
    if !t.more {
      VisitStopped(iter, seen, shown + c, rest);
    }
  }

  /** Nothing left to offer: what was shown is all of it. */
  lemma GoDone<T>(iter: (seq<T>, T) -> bool, seen: seq<T>, offer: seq<T>, shown: seq<T>)
    requires Going(iter, seen, offer, shown, [])
    ensures Visit(iter, seen, offer) == Trace(shown, true)
  {
    assert shown + [] == shown;
  }

  // ---------------------------------------------------------------------------
  // Contents around a child

  /** A branch's contents are its first child's and what follows it. */
  lemma FirstSplit<T>(xs: seq<T>, ws: seq<seq<T>>)
    requires |ws| == |xs| + 1
    ensures Flat(xs, ws) == ws[0] + After(xs, ws, 0)
  {
    Around(xs, ws, 0);
    assert Before(xs, ws, 0) == [];
  }

  /** The contents after item `j`'s left child: the item, its right child, the rest. */
  lemma AfterNext<T>(xs: seq<T>, ws: seq<seq<T>>, j: nat)
    requires |ws| == |xs| + 1 && j < |xs|
    ensures After(xs, ws, j) == [xs[j]] + (ws[j + 1] + After(xs, ws, j + 1))
  {
    var xs1, ws1 := xs[j + 1..], ws[j + 1..];
    Around(xs1, ws1, 0);
    assert Before(xs1, ws1, 0) == [];
    EmptyLeft(ws1[0]);
    assert After(xs1, ws1, 0) == After(xs, ws, j + 1) by {
      if j + 1 < |xs| {
        assert xs1[1..] == xs[j + 2..] && ws1[1..] == ws[j + 2..];
      }
    }
    assert After(xs, ws, j) == [xs[j]] + Flat(xs1, ws1);
  }

  /** Backwards, a branch's contents are its last child's and what precedes it. */
  lemma LastSplit<T>(xs: seq<T>, ws: seq<seq<T>>)
    requires |ws| == |xs| + 1
    ensures Reverse(Flat(xs, ws)) == Reverse(ws[|xs|]) + Reverse(Before(xs, ws, |xs|))
  {
    Around(xs, ws, |xs|);
    assert Flat(xs, ws) == Before(xs, ws, |xs|) + ws[|xs|];
    ReverseAppend(Before(xs, ws, |xs|), ws[|xs|]);
  }

  /** Backwards, the contents before child `j` start with item `j - 1`. */
  lemma RevBeforeNext<T>(xs: seq<T>, ws: seq<seq<T>>, j: nat)
    requires |ws| == |xs| + 1 && 0 < j <= |xs|
    ensures Reverse(Before(xs, ws, j)) == [xs[j - 1]] + (Reverse(ws[j - 1]) + Reverse(Before(xs, ws, j - 1)))
  {
    var B := Before(xs, ws, j - 1);
    BeforeNext(xs, ws, j - 1);
    ReverseAppend(B + ws[j - 1], [xs[j - 1]]);
    ReverseAppend(B, ws[j - 1]);
    assert Reverse([xs[j - 1]]) == [xs[j - 1]];
  }

  /** Backwards, a prefix ends with its last item. */
  lemma RevPrefixNext<T>(xs: seq<T>, i: nat)
    requires i < |xs|
    ensures Reverse(xs[..i + 1]) == [xs[i]] + Reverse(xs[..i])
  {
    assert xs[..i + 1] == xs[..i] + [xs[i]];
    ReverseAppend(xs[..i], [xs[i]]);
    assert Reverse([xs[i]]) == [xs[i]];
  }

  /** A branch's contents from the pivot on, when item `i` is equivalent to it:
      that item and all that follows it. */
  lemma AscendFound<T>(o: Order<T>, n: Node<T>, pivot: T, i: nat)
    requires n.Branch? && |n.children| == |n.items| + 1 && Ascending(o, Walk(n))
    requires i == LowerBound(o, n.items, pivot) && Holds(o, n.items, pivot)
    ensures Walk(n)[LowerBound(o, Walk(n), pivot)..] == After(n.items, Walks(n.children), i)
  {
    var xs, ws, W := n.items, Walks(n.children), Walk(n);
    var B, A := Before(xs, ws, i), After(xs, ws, i);
    Around(xs, ws, i);
    var p := |B| + |ws[i]|;
    assert W == (B + ws[i]) + A && W[p] == xs[i];
    BoundsAt(o, W, pivot, p);
    assert W[p..] == A;
  }

  /** When no item of a branch is equivalent to the pivot, child `i` separates its
      contents: all that precedes it is below the pivot, all that follows above. */
  lemma Separated<T>(o: Order<T>, n: Node<T>, pivot: T, i: nat)
    requires n.Branch? && |n.children| == |n.items| + 1 && Ascending(o, Walk(n))
    requires i == LowerBound(o, n.items, pivot) && !Holds(o, n.items, pivot)
    ensures var xs, ws := n.items, Walks(n.children);
      Walk(n) == Before(xs, ws, i) + ws[i] + After(xs, ws, i)
    ensures Ascending(o, Walk(n.children[i]))
    ensures var B := Before(n.items, Walks(n.children), i);
      forall k :: 0 <= k < |B| ==> o.Lt(B[k], pivot)
    ensures var A := After(n.items, Walks(n.children), i);
      forall k :: 0 <= k < |A| ==> o.Lt(pivot, A[k])
  {
    var xs, ws := n.items, Walks(n.children);
    var B, A := Before(xs, ws, i), After(xs, ws, i);
    Around(xs, ws, i);
    AscendingInfix(o, B, ws[i], A);
    ItemsAscending(o, n);
    Gap(o, xs, pivot);
    Assoc(B, ws[i], A);
    Below(o, B, ws[i] + A, pivot);
    Above(o, B + ws[i], A, pivot);
  }

  /** A slice of three pieces that starts inside the middle one. */
  lemma SuffixInside<T>(B: seq<T>, w: seq<T>, A: seq<T>, c: nat)
    requires c <= |w|
    ensures (B + w + A)[|B| + c..] == w[c..] + A
  {
  }

  /** A slice of three pieces that ends inside the middle one. */
  lemma PrefixInside<T>(B: seq<T>, w: seq<T>, A: seq<T>, c: nat)
    requires c <= |w|
    ensures (B + w + A)[..|B| + c] == B + w[..c]
  {
  }

  /** A branch's contents from the pivot on, when no item is equivalent to it:
      child `i`'s contents from the pivot on, and all that follows that child. */
  lemma AscendBetween<T>(o: Order<T>, n: Node<T>, pivot: T, i: nat)
    requires n.Branch? && |n.children| == |n.items| + 1 && Ascending(o, Walk(n))
    requires i == LowerBound(o, n.items, pivot) && !Holds(o, n.items, pivot)
    ensures Ascending(o, Walk(n.children[i]))
    ensures var W, ws := Walk(n), Walks(n.children);
      W[LowerBound(o, W, pivot)..] == ws[i][LowerBound(o, ws[i], pivot)..] + After(n.items, ws, i)
  {
    var xs, ws := n.items, Walks(n.children);
    var B, A := Before(xs, ws, i), After(xs, ws, i);
    Separated(o, n, pivot, i);
    LowerBoundInside(o, B, ws[i], A, pivot);
    SuffixInside(B, ws[i], A, LowerBound(o, ws[i], pivot));
  }

  /** A branch's contents up to the pivot, when item `i` is equivalent to it: all
      that precedes that item, and the item. */
  lemma DescendFound<T>(o: Order<T>, n: Node<T>, pivot: T, i: nat)
    requires n.Branch? && |n.children| == |n.items| + 1 && Ascending(o, Walk(n))
    requires i == LowerBound(o, n.items, pivot) && Holds(o, n.items, pivot)
    ensures i < |n.items|
    ensures Walk(n)[..UpperBound(o, Walk(n), pivot)] == Before(n.items, Walks(n.children), i + 1)
  {
    var xs, ws, W := n.items, Walks(n.children), Walk(n);
    var B, A := Before(xs, ws, i), After(xs, ws, i);
    Around(xs, ws, i);
    var p := |B| + |ws[i]|;
    assert W == (B + ws[i]) + A && W[p] == xs[i];
    BoundsAt(o, W, pivot, p);
    BeforeNext(xs, ws, i);
    assert W[..p + 1] == B + ws[i] + [xs[i]];
  }

  /** A branch's contents up to the pivot, when no item is equivalent to it: all
      that precedes child `i`, and that child's contents up to the pivot. */
  lemma DescendBetween<T>(o: Order<T>, n: Node<T>, pivot: T, i: nat)
    requires n.Branch? && |n.children| == |n.items| + 1 && Ascending(o, Walk(n))
    requires i == LowerBound(o, n.items, pivot) && !Holds(o, n.items, pivot)
    ensures Ascending(o, Walk(n.children[i]))
    ensures var W, ws := Walk(n), Walks(n.children);
      W[..UpperBound(o, W, pivot)] == Before(n.items, ws, i) + ws[i][..UpperBound(o, ws[i], pivot)]
  {
    var xs, ws := n.items, Walks(n.children);
    var B, A := Before(xs, ws, i), After(xs, ws, i);
    Separated(o, n, pivot, i);
    UpperBoundInside(o, B, ws[i], A, pivot);
    PrefixInside(B, ws[i], A, UpperBound(o, ws[i], pivot));
  }

  /** In an ascending leaf, the items up to the pivot end at `i` or just after it. */
  lemma LeafUpTo<T>(o: Order<T>, xs: seq<T>, pivot: T, i: nat, found: bool)
    requires Ascending(o, xs) && i == LowerBound(o, xs, pivot) && found == Holds(o, xs, pivot)
    ensures UpperBound(o, xs, pivot) == if found then i + 1 else i
  {
    if found {
      BoundsAt(o, xs, pivot, i);
    } else {
      Gap(o, xs, pivot);
      UpperBoundUnique(o, xs, pivot, i);
    }
  }

  // ---------------------------------------------------------------------------
  // The traversals

  /** The loop of nodeScan and nodeAscend over a leaf: its items from `from` on, in
      order, until the visitor says stop. */
  method ScanFrom<T>(items: seq<T>, from: int, iter: (seq<T>, T) -> bool, seen: seq<T>)
    returns (more: bool, shown: seq<T>)
    requires 0 <= from <= |items|
    ensures Trace(shown, more) == Visit(iter, seen, items[from..])
  {
    ghost var offer := items[from..];
    shown := [];
    GoStart(iter, seen, offer);
    for i := from to |items|
      invariant Going(iter, seen, offer, shown, items[i..])
    {
      var x := items[i];
      assert items[i..] == [x] + items[i + 1..];
      var ok := iter(seen + shown, x);
      GoItem(iter, seen, offer, shown, x, items[i + 1..]);
      shown := shown + [x];
      if !ok {
        return false, shown;
      }
    }
    assert items[|items|..] == [];
    GoDone(iter, seen, offer, shown);
    return true, shown;
  }

  /** The loop of nodeReverse and nodeDescend over a leaf: its items before `upTo`,
      in reverse order, until the visitor says stop. */
  method ReverseUpTo<T>(items: seq<T>, upTo: int, iter: (seq<T>, T) -> bool, seen: seq<T>)
    returns (more: bool, shown: seq<T>)
    requires 0 <= upTo <= |items|
    ensures Trace(shown, more) == Visit(iter, seen, Reverse(items[..upTo]))
  {
    ghost var offer := Reverse(items[..upTo]);
    shown := [];
    GoStart(iter, seen, offer);
    var i := upTo - 1;
    while i >= 0
      invariant -1 <= i < upTo
      invariant Going(iter, seen, offer, shown, Reverse(items[..i + 1]))
    {
      var x := items[i];
      RevPrefixNext(items, i);
      var ok := iter(seen + shown, x);
      GoItem(iter, seen, offer, shown, x, Reverse(items[..i]));
      shown := shown + [x];
      if !ok {
        return false, shown;
      }
      i := i - 1;
    }
    assert items[..0] == [];
    GoDone(iter, seen, offer, shown);
    return true, shown;
  }

  /** The loop of nodeScan and nodeAscend over a branch: item `from` and all that
      follows it, each item before its right child's whole contents, until the
      visitor says stop. */
  method AscendChildren<T>(n: Node<T>, from: int, iter: (seq<T>, T) -> bool, seen: seq<T>, ghost h: nat)
    returns (more: bool, shown: seq<T>)
    requires Shaped(n, h) && n.Branch? && 0 <= from <= |n.items|
    ensures Trace(shown, more) == Visit(iter, seen, After(n.items, Walks(n.children), from))
    decreases h, 0
  {
    var xs := n.items;
    ghost var ws := Walks(n.children);
    ghost var offer := After(xs, ws, from);
    shown := [];
    GoStart(iter, seen, offer);
    var j := from;
    while j < |xs|
      invariant from <= j <= |xs|
      invariant Going(iter, seen, offer, shown, After(xs, ws, j))
    {
      var x := xs[j];
      AfterNext(xs, ws, j);
      var ok := iter(seen + shown, x);
      GoItem(iter, seen, offer, shown, x, ws[j + 1] + After(xs, ws, j + 1));
      shown := shown + [x];
      if !ok {
        return false, shown;
      }
      var m, s := NodeScan(n.children[j + 1], iter, seen + shown, h - 1);
      GoChild(iter, seen, offer, shown, ws[j + 1], After(xs, ws, j + 1), Trace(s, m));
      if !m {
        return false, shown + s;
      }
      shown := shown + s;
      j := j + 1;
    }
    GoDone(iter, seen, offer, shown);
    return true, shown;
  }

  /** The loop of nodeReverse and nodeDescend over a branch: item `from` and all
      that precedes it, backwards, each item before its left child's whole contents,
      until the visitor says stop. */
  method ReverseChildren<T>(n: Node<T>, from: int, iter: (seq<T>, T) -> bool, seen: seq<T>, ghost h: nat)
    returns (more: bool, shown: seq<T>)
    requires Shaped(n, h) && n.Branch? && -1 <= from < |n.items|
    ensures Trace(shown, more) == Visit(iter, seen, Reverse(Before(n.items, Walks(n.children), from + 1)))
    decreases h, 0
  {
    var xs := n.items;
    ghost var ws := Walks(n.children);
    ghost var offer := Reverse(Before(xs, ws, from + 1));
    shown := [];
    GoStart(iter, seen, offer);
    var i := from;
    while i >= 0
      invariant -1 <= i <= from
      invariant Going(iter, seen, offer, shown, Reverse(Before(xs, ws, i + 1)))
    {
      var x := xs[i];
      RevBeforeNext(xs, ws, i + 1);
      var ok := iter(seen + shown, x);
      GoItem(iter, seen, offer, shown, x, Reverse(ws[i]) + Reverse(Before(xs, ws, i)));
      shown := shown + [x];
      if !ok {
        return false, shown;
      }
      var m, s := NodeReverse(n.children[i], iter, seen + shown, h - 1);
      GoChild(iter, seen, offer, shown, Reverse(ws[i]), Reverse(Before(xs, ws, i)), Trace(s, m));
      if !m {
        return false, shown + s;
      }
      shown := shown + s;
      i := i - 1;
    }
    assert Before(xs, ws, 0) == [];
    GoDone(iter, seen, offer, shown);
    return true, shown;
  }

  /** nodeScan: the node's contents in order, until the visitor says stop. */
  method NodeScan<T>(n: Node<T>, iter: (seq<T>, T) -> bool, seen: seq<T>, ghost h: nat)
    returns (more: bool, shown: seq<T>)
    requires Shaped(n, h)
    ensures Trace(shown, more) == Visit(iter, seen, Walk(n))
    decreases h, 1
  {
    if n.Leaf? {
      assert n.items[0..] == n.items;
      more, shown := ScanFrom(n.items, 0, iter, seen);
      return;
    }
    ghost var ws := Walks(n.children);
    FirstSplit(n.items, ws);
    var m, s := NodeScan(n.children[0], iter, seen, h - 1);
    if !m {
      Chain(iter, seen, ws[0], After(n.items, ws, 0), Trace(s, m), Trace([], true));
      return false, s;
    }
    var m2, s2 := AscendChildren(n, 0, iter, seen + s, h);
    Chain(iter, seen, ws[0], After(n.items, ws, 0), Trace(s, m), Trace(s2, m2));
    return m2, s + s2;
  }

  /** nodeReverse: the node's contents in reverse order, until the visitor says stop. */
  method NodeReverse<T>(n: Node<T>, iter: (seq<T>, T) -> bool, seen: seq<T>, ghost h: nat)
    returns (more: bool, shown: seq<T>)
    requires Shaped(n, h)
    ensures Trace(shown, more) == Visit(iter, seen, Reverse(Walk(n)))
    decreases h, 1
  {
    var xs := n.items;
    if n.Leaf? {
      assert xs[..|xs|] == xs;
      more, shown := ReverseUpTo(xs, |xs|, iter, seen);
      return;
    }
    ghost var ws := Walks(n.children);
    ghost var before := Reverse(Before(xs, ws, |xs|));
    LastSplit(xs, ws);
    var m, s := NodeReverse(n.children[|xs|], iter, seen, h - 1);
    if !m {
      Chain(iter, seen, Reverse(ws[|xs|]), before, Trace(s, m), Trace([], true));
      return false, s;
    }
    var m2, s2 := ReverseChildren(n, |xs| - 1, iter, seen + s, h);
    Chain(iter, seen, Reverse(ws[|xs|]), before, Trace(s, m), Trace(s2, m2));
    return m2, s + s2;
  }

  /** nodeAscend: the node's contents from `pivot` on, in order, until the visitor
      says stop. */
  method NodeAscend<T>(o: Order<T>, n: Node<T>, pivot: T, iter: (seq<T>, T) -> bool, seen: seq<T>,
                       ghost h: nat)
    returns (more: bool, shown: seq<T>)
    requires Shaped(n, h) && Ascending(o, Walk(n))
    ensures Trace(shown, more) == Visit(iter, seen, Walk(n)[LowerBound(o, Walk(n), pivot)..])
    decreases h
  {
    ItemsAscending(o, n);
    var xs := n.items;
    var i, found := Bsearch(o, xs, pivot);
    if n.Leaf? {
      more, shown := ScanFrom(xs, i, iter, seen);
      return;
    }
    if found {
      AscendFound(o, n, pivot, i);
      more, shown := AscendChildren(n, i, iter, seen, h);
      return;
    }
    ghost var ws := Walks(n.children);
    ghost var after := After(xs, ws, i);
    AscendBetween(o, n, pivot, i);
    var m, s := NodeAscend(o, n.children[i], pivot, iter, seen, h - 1);
    if !m {
      Chain(iter, seen, ws[i][LowerBound(o, ws[i], pivot)..], after, Trace(s, m), Trace([], true));
      return false, s;
    }
    var m2, s2 := AscendChildren(n, i, iter, seen + s, h);
    Chain(iter, seen, ws[i][LowerBound(o, ws[i], pivot)..], after, Trace(s, m), Trace(s2, m2));
    return m2, s + s2;
  }

  /** nodeDescend: the node's contents up to `pivot`, in reverse order, until the
      visitor says stop. */
  method NodeDescend<T>(o: Order<T>, n: Node<T>, pivot: T, iter: (seq<T>, T) -> bool, seen: seq<T>,
                        ghost h: nat)
    returns (more: bool, shown: seq<T>)
    requires Shaped(n, h) && Ascending(o, Walk(n))
    ensures Trace(shown, more) == Visit(iter, seen, Reverse(Walk(n)[..UpperBound(o, Walk(n), pivot)]))
    decreases h
  {
    ItemsAscending(o, n);
    var xs := n.items;
    var i, found := Bsearch(o, xs, pivot);
    if n.Leaf? {
      LeafUpTo(o, xs, pivot, i, found);
      more, shown := ReverseUpTo(xs, if found then i + 1 else i, iter, seen);
      return;
    }
    if found {
      DescendFound(o, n, pivot, i);
      more, shown := ReverseChildren(n, i, iter, seen, h);
      return;
    }
    ghost var ws := Walks(n.children);
    ghost var c := ws[i][..UpperBound(o, ws[i], pivot)];
    ghost var before := Reverse(Before(xs, ws, i));
    DescendBetween(o, n, pivot, i);
    ReverseAppend(Before(xs, ws, i), c);
    var m, s := NodeDescend(o, n.children[i], pivot, iter, seen, h - 1);
    if !m {
      Chain(iter, seen, Reverse(c), before, Trace(s, m), Trace([], true));
      return false, s;
    }
    var m2, s2 := ReverseChildren(n, i - 1, iter, seen + s, h);
    Chain(iter, seen, Reverse(c), before, Trace(s, m), Trace(s2, m2));
    return m2, s + s2;
  }

  /** nodeItems: `items` with the node's contents appended in order. */
  method NodeItems<T>(n: Node<T>, items: seq<T>, ghost h: nat) returns (r: seq<T>)
    requires Shaped(n, h)
    ensures r == items + Walk(n)
    decreases h
  {
    if n.Leaf? {
      return items + n.items;
    }
    var xs := n.items;
    ghost var ws := Walks(n.children);
    r := items;
    for i := 0 to |xs|
      invariant r == items + Before(xs, ws, i)
    {
      r := NodeItems(n.children[i], r, h - 1);
      r := r + [xs[i]];
      assert r == items + Before(xs, ws, i + 1) by {
        BeforeNext(xs, ws, i);
        Assoc(items, Before(xs, ws, i), ws[i]);
        Assoc(items, Before(xs, ws, i) + ws[i], [xs[i]]);
      }
    }
    r := NodeItems(n.children[|xs|], r, h - 1);
    assert r == items + Walk(n) by {
      Around(xs, ws, |xs|);
      assert Walk(n) == Before(xs, ws, |xs|) + ws[|xs|];
      Assoc(items, Before(xs, ws, |xs|), ws[|xs|]);
    }
  }
}
