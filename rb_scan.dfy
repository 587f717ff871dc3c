/** The read-only traversals of the left-leaning red-black tree: ascend, descend,
    ascendRange, ascendGreaterOrEqual, ascendLessThan and descendLessOrEqual
    (rbtree/rbtree.go:389-513). Each is a recursion over the node value that returns
    the trace of visitor calls; each is held to the visitor protocol run over the
    items it is meant to offer, picked out of the in-order items by a filter. */
module RedBlackScans {
  import opened Ordering
  import opened RedBlackNodes

  /** The items of `s` that `keep` accepts, in their order. */
  function Select<T>(s: seq<T>, keep: T -> bool): (r: seq<T>)
    ensures |r| <= |s|
    ensures forall i :: 0 <= i < |r| ==> r[i] in s && keep(r[i])
    ensures forall i :: 0 <= i < |s| && keep(s[i]) ==> s[i] in r
  {
    if s == [] then []
    else
      var rest := Select(s[1..], keep);
      if keep(s[0]) then [s[0]] + rest else rest
  }

  /** The filter of ascendRange: at least `inf` and below `sup`. */
  function InRange<T>(o: Order<T>, inf: T, sup: T): T -> bool {
    x => !o.Lt(x, inf) && o.Lt(x, sup)
  }

  /** The filter of ascendGreaterOrEqual: not below `pivot`. */
  function GreaterOrEqual<T>(o: Order<T>, pivot: T): T -> bool {
    x => !o.Lt(x, pivot)
  }

  /** The filter of ascendLessThan: below `pivot`. */
  function LessThan<T>(o: Order<T>, pivot: T): T -> bool {
    x => o.Lt(x, pivot)
  }

  /** The filter of descendLessOrEqual: not above `pivot`. */
  function LessOrEqual<T>(o: Order<T>, pivot: T): T -> bool {
    x => !o.Lt(pivot, x)
  }

  lemma {:induction false} SelectAppend<T>(a: seq<T>, b: seq<T>, keep: T -> bool)
    ensures Select(a + b, keep) == Select(a, keep) + Select(b, keep)
  {
    if a != [] {
      assert (a + b)[0] == a[0] && (a + b)[1..] == a[1..] + b;
      SelectAppend(a[1..], b, keep);
      Assoc([a[0]], Select(a[1..], keep), Select(b, keep));
    } else {
      assert a + b == b;
    }
  }

  /** A node's selection is its left part's, its own item if kept, and its right
      part's. */
  lemma {:induction false} SelectNode<T>(L: seq<T>, x: T, R: seq<T>, keep: T -> bool)
    ensures Select(L + [x] + R, keep) == Select(L, keep) + (if keep(x) then [x] else []) + Select(R, keep)
  {
    SelectAppend(L + [x], R, keep);
    SelectAppend(L, [x], keep);
    assert [x][1..] == [];
    assert Select([x], keep) == if keep(x) then [x] else [];
  }

  lemma {:induction false} SelectNone<T>(s: seq<T>, keep: T -> bool)
    requires forall i :: 0 <= i < |s| ==> !keep(s[i])
    ensures Select(s, keep) == []
  {
    if s != [] {
      SelectNone(s[1..], keep);
    }
  }

  /** The visitor protocol over a node's items: the left part, then the node's own
      item once the left part went through, then the right part once the visitor
      said yes to the item. */
  lemma NodeVisit<T>(iter: (seq<T>, T) -> bool, seen: seq<T>, L: seq<T>, x: T, R: seq<T>)
    ensures Visit(iter, seen, L + [x] + R) ==
      var l := Visit(iter, seen, L);
      if !l.more then l
      else if !iter(seen + l.visited, x) then Trace(l.visited + [x], false)
      else
        var r := Visit(iter, seen + l.visited + [x], R);
        Trace(l.visited + [x] + r.visited, r.more)
  {
    Assoc(L, [x], R);
    VisitAppend(iter, seen, L, [x] + R);
    var xr := [x] + R;
    assert xr[0] == x && xr[1..] == R;
    var l := Visit(iter, seen, L);
    if l.more && iter(seen + l.visited, x) {
      var r := Visit(iter, seen + l.visited + [x], R);
      assert Visit(iter, seen + L, xr) == Trace([x] + r.visited, r.more);
      Assoc(L, [x], r.visited);
    }
  }

  /** ascend: every item, in order. */
  function Ascend<T>(h: Tree<T>, iter: (seq<T>, T) -> bool, seen: seq<T>): Trace<T> {
    if h.Nil? then Trace([], true)
    else
      var l := Ascend(h.left, iter, seen);
      if !l.more then l
      else if !iter(seen + l.visited, h.item) then Trace(l.visited + [h.item], false)
      else
        var r := Ascend(h.right, iter, seen + l.visited + [h.item]);
        Trace(l.visited + [h.item] + r.visited, r.more)
  }

  /** descend: every item, in reverse order. */
  function Descend<T>(h: Tree<T>, iter: (seq<T>, T) -> bool, seen: seq<T>): Trace<T> {
    if h.Nil? then Trace([], true)
    else
      var r := Descend(h.right, iter, seen);
      if !r.more then r
      else if !iter(seen + r.visited, h.item) then Trace(r.visited + [h.item], false)
      else
        var l := Descend(h.left, iter, seen + r.visited + [h.item]);
        Trace(r.visited + [h.item] + l.visited, l.more)
  }

  /** ascendRange: a node not below `sup` leaves only its left subtree to visit, one
      below `inf` only its right subtree; otherwise the node is visited in order. */
  function AscendRange<T>(o: Order<T>, h: Tree<T>, inf: T, sup: T, iter: (seq<T>, T) -> bool, seen: seq<T>): Trace<T> {
    if h.Nil? then Trace([], true)
    else if !o.Lt(h.item, sup) then AscendRange(o, h.left, inf, sup, iter, seen)
    else if o.Lt(h.item, inf) then AscendRange(o, h.right, inf, sup, iter, seen)
    else
      var l := AscendRange(o, h.left, inf, sup, iter, seen);
      if !l.more then l
      else if !iter(seen + l.visited, h.item) then Trace(l.visited + [h.item], false)
      else
        var r := AscendRange(o, h.right, inf, sup, iter, seen + l.visited + [h.item]);
        Trace(l.visited + [h.item] + r.visited, r.more)
  }

  /** ascendGreaterOrEqual: a node below `pivot` leaves only its right subtree. */
  function AscendGreaterOrEqual<T>(o: Order<T>, h: Tree<T>, pivot: T, iter: (seq<T>, T) -> bool, seen: seq<T>): Trace<T> {
    if h.Nil? then Trace([], true)
    else if !o.Lt(h.item, pivot) then
      var l := AscendGreaterOrEqual(o, h.left, pivot, iter, seen);
      if !l.more then l
      else if !iter(seen + l.visited, h.item) then Trace(l.visited + [h.item], false)
      else
        var r := AscendGreaterOrEqual(o, h.right, pivot, iter, seen + l.visited + [h.item]);
        Trace(l.visited + [h.item] + r.visited, r.more)
    else AscendGreaterOrEqual(o, h.right, pivot, iter, seen)
  }

  /** ascendLessThan: the left subtree always; the node and its right subtree only
      when the node is below `pivot`, and otherwise the traversal goes on. */
  function AscendLessThan<T>(o: Order<T>, h: Tree<T>, pivot: T, iter: (seq<T>, T) -> bool, seen: seq<T>): Trace<T> {
    if h.Nil? then Trace([], true)
    else
      var l := AscendLessThan(o, h.left, pivot, iter, seen);
      if !l.more then l
      else if o.Lt(h.item, pivot) then
        if !iter(seen + l.visited, h.item) then Trace(l.visited + [h.item], false)
        else
          var r := AscendLessThan(o, h.right, pivot, iter, seen + l.visited + [h.item]);
          Trace(l.visited + [h.item] + r.visited, r.more)
      else Trace(l.visited, true)
  }

  /** descendLessOrEqual: a node above `pivot` leaves only its left subtree; otherwise
      the node is visited in reverse order. */
  function DescendLessOrEqual<T>(o: Order<T>, h: Tree<T>, pivot: T, iter: (seq<T>, T) -> bool, seen: seq<T>): Trace<T> {
    if h.Nil? then Trace([], true)
    else if o.Lt(h.item, pivot) || !o.Lt(pivot, h.item) then
      var r := DescendLessOrEqual(o, h.right, pivot, iter, seen);
      if !r.more then r
      else if !iter(seen + r.visited, h.item) then Trace(r.visited + [h.item], false)
      else
        var l := DescendLessOrEqual(o, h.left, pivot, iter, seen + r.visited + [h.item]);
        Trace(r.visited + [h.item] + l.visited, l.more)
    else DescendLessOrEqual(o, h.left, pivot, iter, seen)
  }

  /** ascend offers the items in order and stops at the first no. */
  lemma {:induction false} AscendVisits<T>(h: Tree<T>, iter: (seq<T>, T) -> bool, seen: seq<T>)
    ensures Ascend(h, iter, seen) == Visit(iter, seen, Items(h))
  {
    if h.Node? {
      AscendVisits(h.left, iter, seen);
      var l := Ascend(h.left, iter, seen);
      if l.more {
        AscendVisits(h.right, iter, seen + l.visited + [h.item]);
      }
      NodeVisit(iter, seen, Items(h.left), h.item, Items(h.right));
    }
  }

  /** descend offers the items in reverse order and stops at the first no. */
  lemma {:induction false} DescendVisits<T>(h: Tree<T>, iter: (seq<T>, T) -> bool, seen: seq<T>)
    ensures Descend(h, iter, seen) == Visit(iter, seen, Reverse(Items(h)))
  {
    if h.Node? {
      DescendVisits(h.right, iter, seen);
      var r := Descend(h.right, iter, seen);
      if r.more {
        DescendVisits(h.left, iter, seen + r.visited + [h.item]);
      }
      ReverseNode(Items(h.left), h.item, Items(h.right));
      NodeVisit(iter, seen, Reverse(Items(h.right)), h.item, Reverse(Items(h.left)));
    }
  }

  lemma ReverseNode<T>(L: seq<T>, x: T, R: seq<T>)
    ensures Reverse(L + [x] + R) == Reverse(R) + [x] + Reverse(L)
  {
    ReverseAppend(L + [x], R);
    ReverseAppend(L, [x]);
    assert Reverse([x]) == [x];
    Assoc(Reverse(R), [x], Reverse(L));
  }

  /** With ordered items, ascendRange offers exactly the items at least `inf` and below
      `sup`, in order, and stops at the first no. */
  lemma {:induction false} AscendRangeVisits<T>(o: Order<T>, h: Tree<T>, inf: T, sup: T, iter: (seq<T>, T) -> bool, seen: seq<T>)
    requires NonDecreasing(o, Items(h))
    ensures AscendRange(o, h, inf, sup, iter, seen) == Visit(iter, seen, Select(Items(h), InRange(o, inf, sup)))
  {
    if h.Node? {
      var L, x, R, keep := Items(h.left), h.item, Items(h.right), InRange(o, inf, sup);
      OrderedParts(o, L, x, R);
      SelectNode(L, x, R, keep);
      if !o.Lt(x, sup) {
        SelectNone(R, keep);
        AscendRangeVisits(o, h.left, inf, sup, iter, seen);
        assert Select(L + [x] + R, keep) == Select(L, keep);
      } else if o.Lt(x, inf) {
        SelectNone(L, keep);
        AscendRangeVisits(o, h.right, inf, sup, iter, seen);
        assert Select(L + [x] + R, keep) == Select(R, keep);
      } else {
        AscendRangeVisits(o, h.left, inf, sup, iter, seen);
        var l := AscendRange(o, h.left, inf, sup, iter, seen);
        if l.more {
          AscendRangeVisits(o, h.right, inf, sup, iter, seen + l.visited + [x]);
        }
        NodeVisit(iter, seen, Select(L, keep), x, Select(R, keep));
      }
    }
  }

  /** With ordered items, ascendGreaterOrEqual offers exactly the items not below
      `pivot`, in order, and stops at the first no. */
  lemma {:induction false} AscendGreaterOrEqualVisits<T>(o: Order<T>, h: Tree<T>, pivot: T, iter: (seq<T>, T) -> bool, seen: seq<T>)
    requires NonDecreasing(o, Items(h))
    ensures AscendGreaterOrEqual(o, h, pivot, iter, seen) == Visit(iter, seen, Select(Items(h), GreaterOrEqual(o, pivot)))
  {
    if h.Node? {
      var L, x, R, keep := Items(h.left), h.item, Items(h.right), GreaterOrEqual(o, pivot);
      OrderedParts(o, L, x, R);
      SelectNode(L, x, R, keep);
      if !o.Lt(x, pivot) {
        AscendGreaterOrEqualVisits(o, h.left, pivot, iter, seen);
        var l := AscendGreaterOrEqual(o, h.left, pivot, iter, seen);
        if l.more {
          AscendGreaterOrEqualVisits(o, h.right, pivot, iter, seen + l.visited + [x]);
        }
        NodeVisit(iter, seen, Select(L, keep), x, Select(R, keep));
      } else {
        SelectNone(L, keep);
        AscendGreaterOrEqualVisits(o, h.right, pivot, iter, seen);
        assert Select(L + [x] + R, keep) == Select(R, keep);
      }
    }
  }

  /** With ordered items, ascendLessThan offers exactly the items below `pivot`, in
      order, and stops at the first no. */
  lemma {:induction false} AscendLessThanVisits<T>(o: Order<T>, h: Tree<T>, pivot: T, iter: (seq<T>, T) -> bool, seen: seq<T>)
    requires NonDecreasing(o, Items(h))
    ensures AscendLessThan(o, h, pivot, iter, seen) == Visit(iter, seen, Select(Items(h), LessThan(o, pivot)))
  {
    if h.Node? {
      var L, x, R, keep := Items(h.left), h.item, Items(h.right), LessThan(o, pivot);
      OrderedParts(o, L, x, R);
      SelectNode(L, x, R, keep);
      AscendLessThanVisits(o, h.left, pivot, iter, seen);
      var l := AscendLessThan(o, h.left, pivot, iter, seen);
      if o.Lt(x, pivot) {
        if l.more {
          AscendLessThanVisits(o, h.right, pivot, iter, seen + l.visited + [x]);
        }
        NodeVisit(iter, seen, Select(L, keep), x, Select(R, keep));
      } else {
        SelectNone(R, keep);
        assert Select(L + [x] + R, keep) == Select(L, keep);
      }
    }
  }

  /** With ordered items, descendLessOrEqual offers exactly the items not above
      `pivot`, in reverse order, and stops at the first no. */
  lemma {:induction false} DescendLessOrEqualVisits<T>(o: Order<T>, h: Tree<T>, pivot: T, iter: (seq<T>, T) -> bool, seen: seq<T>)
    requires NonDecreasing(o, Items(h))
    ensures DescendLessOrEqual(o, h, pivot, iter, seen) == Visit(iter, seen, Reverse(Select(Items(h), LessOrEqual(o, pivot))))
  {
    if h.Node? {
      var L, x, R, keep := Items(h.left), h.item, Items(h.right), LessOrEqual(o, pivot);
      OrderedParts(o, L, x, R);
      SelectNode(L, x, R, keep);
      if !o.Lt(pivot, x) {
        DescendLessOrEqualVisits(o, h.right, pivot, iter, seen);
        var r := DescendLessOrEqual(o, h.right, pivot, iter, seen);
        if r.more {
          DescendLessOrEqualVisits(o, h.left, pivot, iter, seen + r.visited + [x]);
        }
        ReverseNode(Select(L, keep), x, Select(R, keep));
        NodeVisit(iter, seen, Reverse(Select(R, keep)), x, Reverse(Select(L, keep)));
      } else {
        SelectNone(R, keep);
        DescendLessOrEqualVisits(o, h.left, pivot, iter, seen);
        assert Select(L + [x] + R, keep) == Select(L, keep);
      }
    }
  }

  /** The visitor Values hands to ascend: it keeps every item and always asks for
      more. */
  function Collector<T>(): (seq<T>, T) -> bool {
    (seen, x) => true
  }

  /** A visitor that always asks for more is offered everything. */
  lemma {:induction false} CollectAll<T>(seen: seq<T>, s: seq<T>)
    ensures Visit(Collector(), seen, s) == Trace(s, true)
    decreases |s|
  {
    if s != [] {
      CollectAll(seen + [s[0]], s[1..]);
      assert [s[0]] + s[1..] == s;
    }
  }
}
