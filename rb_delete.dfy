/** Deletion from the left-leaning red-black tree: `deleteMin`, `deleteMax` and
    `delete`. Each descends into a subtree that can give up an item without losing
    black height, borrowing a red link from a sibling with `moveRedLeft` or
    `moveRedRight` where needed, and repairs the shape with `fixUp` on the way back. */
module RedBlackDelete {
  import opened Ordering
  import opened RedBlackNodes
  import RedBlackInsert

  /** The subtrees a deletion may be handed: a valid one, or a black node whose red
      link leans right, as `moveRedRight` leaves one. */
  ghost predicate Deletable<T>(h: Tree<T>) {
    Valid(h) || Leaning(h)
  }

  /** The children of a valid or leaning node are valid, and a nil left link means a
      nil right link unless the node leans. */
  lemma ChildrenValid<T>(h: Tree<T>)
    requires h.Node? && Deletable(h)
    ensures Valid(h.left) && Valid(h.right)
    ensures Valid(h) && h.left.Nil? ==> h.right.Nil?
  {
  }

  /** Before `deleteMin` or `delete` goes left across a black link whose left link is
      black too: the right child is there (the black heights agree) and is black, so
      `moveRedLeft` may run, and it leaves a valid left child. */
  lemma MoveRedLeftReady<T>(h: Tree<T>)
    requires Deletable(h) && h.Node? && h.left.Node? && !IsRed(h.left) && !IsRed(h.left.left)
    ensures h.right.Node? && (IsRed(h.right.left) ==> h.right.black)
    ensures Valid(MoveRedLeft(h).left)
  {
    ChildrenValid(h);
    var L, R := h.left, h.right;
    assert BH(L) > 0;
    assert LL(L.left) && LL(L.right) && !IsRed(L.right);
    var L' := L.(black := false);
    assert Valid(L');
    if IsRed(R.left) {
      var x := R.left;
      assert R.black && LL(x) && Balanced(x) && BH(x) == BH(R) - 1;
      assert LL(x.left) && !IsRed(x.left) && Balanced(x.left) && BH(x.left) == BH(L');
      assert MoveRedLeft(h).left == Node(L', h.item, x.left, true);
    }
  }

  /** Cutting the first item off a node's items cuts it off its left part. */
  lemma DropFirst<T>(A: seq<T>, y: T, B: seq<T>)
    requires A != []
    ensures (A + [y] + B)[0] == A[0] && (A + [y] + B)[1..] == A[1..] + [y] + B
  {
  }

  /** The step both `deleteMin` and `delete` take before going left: borrow with
      `moveRedLeft` when the left link and the one below it are both black. */
  function LeftStep<T>(h: Tree<T>): (m: Tree<T>)
    requires Deletable(h) && h.Node? && h.left.Node?
    ensures m.Node? && m.left.Node? && Valid(m.left)
    ensures Items(m) == Items(h)
    ensures m.item == h.item || |Items(m.left)| > |Items(h.left)|
  {
    if !IsRed(h.left) && !IsRed(h.left.left) then
      MoveRedLeftReady(h);
      MoveRedLeft(h)
    else
      ChildrenValid(h);
      h
  }

  /** deleteMin: remove the leftmost item. A node without a left child is the
      minimum; its right link is then nil as well in a valid tree. */
  function DeleteMin<T>(h: Tree<T>): (r: (Tree<T>, Option<T>))
    requires Deletable(h)
    ensures r.1.Some? == h.Node?
    ensures h.Node? ==> r.1.value == Items(h)[0]
    ensures Valid(h) && h.Node? ==> Items(r.0) == Items(h)[1..]
    decreases |Items(h)|
  {
    if h.Nil? then (Nil, None)
    else if h.left.Nil? then
      ChildrenValid(h);
      (Nil, Some(h.item))
    else
      var m := LeftStep(h);
      var (l, d) := DeleteMin(m.left);
      DropFirst(Items(m.left), m.item, Items(m.right));
      (FixUp(m.(left := l)), d)
  }

  /** The step `deleteMax` and `delete` take first on the right-hand side: a red left
      link is turned right, so the node's left link is black afterwards. */
  function LeanRight<T>(h: Tree<T>): (a: Tree<T>)
    requires Deletable(h) && h.Node?
    ensures a.Node? && Items(a) == Items(h)
    ensures !IsRed(a.left) && Valid(a.left) && Valid(a.right) && BH(a.left) == BH(a.right)
    ensures a.right.Nil? ==> a.left.Nil?
    ensures a.item == h.item || |Items(a.left)| < |Items(h.left)|
    ensures a.item == h.item || IsRed(a.right)
  {
    ChildrenValid(h);
    if IsRed(h.left) then
      var x := h.left;
      assert LL(x.left) && LL(x.right) && !IsRed(x.left) && !IsRed(x.right);
      assert !IsRed(h.right) && BH(x.right) == BH(h.right);
      RotateRight(h)
    else
      assert h.right.Nil? ==> BH(h.left) == 0;
      h
  }

  /** `moveRedRight` runs on a node whose right link and the one below it are black;
      it rotates when the left link has a red link below it. */
  predicate Rotates<T>(a: Tree<T>)
    requires a.Node?
  {
    a.right.Node? && !IsRed(a.right) && !IsRed(a.right.left) && a.left.Node? && IsRed(a.left.left)
  }

  /** Before going right across a black link whose left link is black too: the left
      child is there and black, so `moveRedRight` may run; it leaves a valid right
      child, or, when it rotates, a leaning one holding the node's item. */
  lemma MoveRedRightReady<T>(a: Tree<T>)
    requires a.Node? && a.right.Node? && !IsRed(a.left) && Valid(a.left) && Valid(a.right)
    requires BH(a.left) == BH(a.right) && !IsRed(a.right) && !IsRed(a.right.left)
    ensures a.left.Node? && (IsRed(a.left.left) ==> a.left.black)
    ensures !IsRed(a.left.left) ==> Valid(MoveRedRight(a).right)
    ensures IsRed(a.left.left) ==> Leaning(MoveRedRight(a).right)
  {
    assert BH(a.right) > 0;
    var L, R := a.left, a.right;
    assert LL(R.left) && LL(R.right) && !IsRed(R.right);
    if IsRed(L.left) {
      assert !IsRed(L.right) && LL(L.right) && BH(L.right) == BH(L) - 1;
      assert MoveRedRight(a).right == Node(L.right, a.item, R.(black := false), true);
    } else {
      assert MoveRedRight(a).right == R.(black := false);
    }
  }

  /** The borrowing step before going right: `moveRedRight` when the right link and the
      one below it are black. The new right child is valid, or, when the borrowing
      rotated, a leaning node holding the old node's item. */
  function RightStep<T>(a: Tree<T>): (m: Tree<T>)
    requires a.Node? && a.right.Node? && !IsRed(a.left) && Valid(a.left) && Valid(a.right)
    requires BH(a.left) == BH(a.right)
    ensures m.Node? && m.right.Node? && Items(m) == Items(a)
    ensures !Rotates(a) ==> Valid(m.right) && m.item == a.item && |Items(m.left)| == |Items(a.left)|
    ensures Rotates(a) ==> Leaning(m.right) && m.right.item == a.item
  {
    if !IsRed(a.right) && !IsRed(a.right.left) then
      MoveRedRightReady(a);
      MoveRedRight(a)
    else
      a
  }

  /** deleteMax: remove the rightmost item, leaning every red link right on the way
      down so that the item can be cut off where the right link is nil. */
  function DeleteMax<T>(h: Tree<T>): (r: (Tree<T>, Option<T>))
    requires Deletable(h)
    ensures r.1.Some? == h.Node?
    ensures h.Node? ==> Items(h) == Items(r.0) + [r.1.value]
    decreases |Items(h)|
  {
    if h.Nil? then (Nil, None)
    else
      var a := LeanRight(h);
      if a.right.Nil? then
        assert Items(h) == [a.item];
        (Nil, Some(a.item))
      else
        var m := RightStep(a);
        var (rr, d) := DeleteMax(m.right);
        Assoc(Items(m.left) + [m.item], Items(rr), [d.value]);
        (FixUp(m.(right := rr)), d)
  }

  /** delete: remove one item equivalent to `key`. Going left it borrows like
      `deleteMin`; going right it leans red links right like `deleteMax`, and a node
      holding an equivalent item takes over the minimum of its right subtree in its
      place. The equivalence test is made only when `moveRedRight` did not rotate:
      a rotation brings up an item from the left, whose removal the replacement by
      the right minimum would not achieve. */
  function Delete<T>(o: Order<T>, h: Tree<T>, key: T): (r: (Tree<T>, Option<T>))
    requires Deletable(h) && (Leaning(h) ==> !o.Lt(key, h.item))
    ensures |Items(r.0)| == |Items(h)| - (if r.1.Some? then 1 else 0)
    ensures r.1.Some? ==> !o.Lt(r.1.value, key)
    decreases |Items(h)|
  {
    if h.Nil? then (Nil, None)
    else if o.Lt(key, h.item) then
      if h.left.Nil? then (h, None)
      else
        var m := LeftStep(h);
        var (l, d) := Delete(o, m.left, key);
        (FixUp(m.(left := l)), d)
    else
      var a := LeanRight(h);
      if !o.Lt(a.item, key) && a.right.Nil? then (Nil, Some(a.item))
      else
        var rotated := a.right.Node? && Rotates(a);
        var m := if a.right.Node? then RightStep(a) else a;
        if !rotated && !o.Lt(m.item, key) then
          var (rr, d) := DeleteMin(m.right);
          (FixUp(m.(right := rr, item := d.value)), Some(m.item))
        else
          var (rr, d) := Delete(o, m.right, key);
          (FixUp(m.(right := rr)), d)
  }

  /** `delete` as the source writes it: the equivalence test after `moveRedRight` is
      made on whatever item is now on top, also when the rotation brought it up from
      the left. `deleteMin` then runs on a leaning node. */
  function DeleteAsWritten<T>(o: Order<T>, h: Tree<T>, key: T): (r: (Tree<T>, Option<T>))
    requires Deletable(h) && (Leaning(h) ==> !o.Lt(key, h.item))
    ensures r.1.Some? ==> !o.Lt(r.1.value, key)
    decreases |Items(h)|
  {
    if h.Nil? then (Nil, None)
    else if o.Lt(key, h.item) then
      if h.left.Nil? then (h, None)
      else
        var m := LeftStep(h);
        var (l, d) := DeleteAsWritten(o, m.left, key);
        (FixUp(m.(left := l)), d)
    else
      var a := LeanRight(h);
      if !o.Lt(a.item, key) && a.right.Nil? then (Nil, Some(a.item))
      else
        var m := if a.right.Node? then RightStep(a) else a;
        if !o.Lt(m.item, key) then
          var (rr, d) := DeleteMin(m.right);
          (FixUp(m.(right := rr, item := d.value)), Some(m.item))
        else
          var (rr, d) := DeleteAsWritten(o, m.right, key);
          (FixUp(m.(right := rr)), d)
  }

  /** Integers in their usual order. */
  function IntOrder(): Order<int> {
    Order(x => x as real)
  }

  /** The tree that inserting 2, 1, 1 and 0 in turn into an empty tree builds: a
      black 1 over a black 1 with a red 0 below it on the left, and a black 2 on the
      right. */
  function Sample(): Tree<int> {
    Node(Node(Node(Nil, 0, Nil, false), 1, Nil, true), 1, Node(Nil, 2, Nil, true), true)
  }

  /** The sample is what inserting 2, 1, 1 and 0 in turn builds, the root blackened
      after each insertion as `Insert` does. */
  lemma SampleBuilt()
    ensures var o := IntOrder();
      var t2 := Blacken(RedBlackInsert.InsertNoReplace(o, Nil, 2));
      var t1 := Blacken(RedBlackInsert.InsertNoReplace(o, t2, 1));
      var t11 := Blacken(RedBlackInsert.InsertNoReplace(o, t1, 1));
      Blacken(RedBlackInsert.InsertNoReplace(o, t11, 0)) == Sample()
  {
    var o := IntOrder();
    var t2 := Blacken(RedBlackInsert.InsertNoReplace(o, Nil, 2));
    assert t2 == Node(Nil, 2, Nil, true);
    var t1 := Blacken(RedBlackInsert.InsertNoReplace(o, t2, 1));
    assert t1 == Node(Node(Nil, 1, Nil, false), 2, Nil, true);
    var t11 := Blacken(RedBlackInsert.InsertNoReplace(o, t1, 1));
    assert t11 == Node(Node(Nil, 1, Nil, true), 1, Node(Nil, 2, Nil, true), true);
  }

  /** Deleting 1 from the sample as the source is written removes the 1 rotated up
      from the left together with the 2 on the right: one item is reported deleted,
      two are gone. */
  lemma DeleteAsWrittenLosesItem()
    ensures Valid(Sample()) && Items(Sample()) == [0, 1, 1, 2]
    ensures var (t, d) := DeleteAsWritten(IntOrder(), Sample(), 1);
      d == Some(1) && Items(t) == [0, 1]
  {
    var h := Sample();
    var m := Node(Node(Nil, 0, Nil, true), 1, Node(Nil, 1, Node(Nil, 2, Nil, false), true), true);
    assert LeanRight(h) == h;
    assert Rotates(h);
    assert RightStep(h) == m;
    assert DeleteMin(m.right) == (Nil, Some(1));
    assert DeleteAsWritten(IntOrder(), h, 1) == (FixUp(m.(right := Nil, item := 1)), Some(1));
  }

  /** The corrected `delete` removes just one 1 from the sample. */
  lemma DeleteKeepsOthers()
    ensures var (t, d) := Delete(IntOrder(), Sample(), 1);
      d == Some(1) && Items(t) == [0, 1, 2]
  {
    var h := Sample();
    var m := Node(Node(Nil, 0, Nil, true), 1, Node(Nil, 1, Node(Nil, 2, Nil, false), true), true);
    assert LeanRight(h) == h;
    assert Rotates(h);
    assert RightStep(h) == m;
    var n := m.right;
    assert LeanRight(n) == n && RightStep(n) == n;
    assert DeleteMin(n.right) == (Nil, Some(2));
    assert Delete(IntOrder(), n, 1) == (FixUp(Node(Nil, 2, Nil, true)), Some(1));
    assert Delete(IntOrder(), h, 1) == (FixUp(m.(right := Node(Nil, 2, Nil, true))), Some(1));
  }

  /** On strictly ascending contents the corrected `delete` is the source's: the two
      part only when `moveRedRight` rotated and the item brought up does not sort
      below `key`, and a rotated-up item sorts below the node's own item, which does
      not sort after `key`. */
  lemma {:induction false} DeleteAgrees<T>(o: Order<T>, h: Tree<T>, key: T)
    requires Deletable(h) && (Leaning(h) ==> !o.Lt(key, h.item)) && Ascending(o, Items(h))
    ensures Delete(o, h, key) == DeleteAsWritten(o, h, key)
    decreases |Items(h)|
  {
    if h.Nil? {
    } else if o.Lt(key, h.item) {
      if h.left.Node? {
        var m := LeftStep(h);
        assert [] + Items(m.left) + ([m.item] + Items(m.right)) == Items(h);
        AscendingInfix(o, [], Items(m.left), [m.item] + Items(m.right));
        DeleteAgrees(o, m.left, key);
      }
    } else {
      var a := LeanRight(h);
      if !(!o.Lt(a.item, key) && a.right.Nil?) {
        var rotated := a.right.Node? && Rotates(a);
        var m := if a.right.Node? then RightStep(a) else a;
        if rotated {
          RaisedBelowKey(o, h, a, m, key);
        }
        if rotated || o.Lt(m.item, key) {
          assert Items(m.left) + [m.item] + Items(m.right) + [] == Items(h);
          AscendingInfix(o, Items(m.left) + [m.item], Items(m.right), []);
          DeleteAgrees(o, m.right, key);
        }
      }
    }
  }

  /** When `moveRedRight` rotates below `a`, the item it brings up sorts below `key`. */
  lemma RaisedBelowKey<T>(o: Order<T>, h: Tree<T>, a: Tree<T>, m: Tree<T>, key: T)
    requires Deletable(h) && h.Node? && !o.Lt(key, h.item) && Ascending(o, Items(h))
    requires a == LeanRight(h) && a.right.Node? && Rotates(a) && m == RightStep(a)
    ensures o.Lt(m.item, key)
  {
    assert a.item == h.item;
    var L, R := Items(m.left), Items(m.right.left);
    var s := Items(m);
    assert s == L + [m.item] + (R + [m.right.item] + Items(m.right.right));
    assert s[|L|] == m.item && s[|L| + 1 + |R|] == a.item;
  }

  /** What a deletion of `key` may do to the contents `s`: take out one item
      equivalent to `key`, the item reported, and keep the rest in order; or, when
      nothing reported, find no equivalent item and keep everything. */
  ghost predicate RemovedOne<T>(o: Order<T>, s: seq<T>, key: T, d: Option<T>, s': seq<T>) {
    (d.Some? ==> exists k :: 0 <= k < |s| && o.Equiv(s[k], key) && d.value == s[k] && s' == s[..k] + s[k + 1..]) &&
    (d.None? ==> Lacks(o, s, key) && s' == s)
  }

  /** A deletion in a node's left part is one in the node, when the node's item sorts
      after the key. */
  lemma CutLeft<T>(o: Order<T>, A: seq<T>, y: T, B: seq<T>, key: T, d: Option<T>, A': seq<T>)
    requires NonDecreasing(o, A + [y] + B) && RemovedOne(o, A, key, d, A')
    requires d.None? ==> o.Lt(key, y)
    ensures RemovedOne(o, A + [y] + B, key, d, A' + [y] + B)
  {
    var s := A + [y] + B;
    if d.Some? {
      var k :| 0 <= k < |A| && o.Equiv(A[k], key) && d.value == A[k] && A' == A[..k] + A[k + 1..];
      assert s[k] == A[k];
      assert s[..k] == A[..k] && s[k + 1..] == A[k + 1..] + [y] + B;
    } else {
      forall i | 0 <= i < |s| ensures !o.Equiv(s[i], key) {
        if i >= |A| {
          assert s[|A|] == y;
        }
      }
    }
  }

  /** Cutting item `k` of a node's right part cuts item `|A| + 1 + k` of the node. */
  lemma CutAt<T>(A: seq<T>, y: T, B: seq<T>, k: nat)
    requires k < |B|
    ensures var s, j := A + [y] + B, |A| + 1 + k;
      s[j] == B[k] && A + [y] + (B[..k] + B[k + 1..]) == s[..j] + s[j + 1..]
  {
    var s, j := A + [y] + B, |A| + 1 + k;
    assert s[..j] == A + [y] + B[..k];
    assert s[j + 1..] == B[k + 1..];
  }

  /** A deletion in a node's right part is one in the node, when the node's item
      sorts before the key. */
  lemma CutRight<T>(o: Order<T>, A: seq<T>, y: T, B: seq<T>, key: T, d: Option<T>, B': seq<T>)
    requires NonDecreasing(o, A + [y] + B) && RemovedOne(o, B, key, d, B')
    requires d.None? ==> o.Lt(y, key)
    ensures RemovedOne(o, A + [y] + B, key, d, A + [y] + B')
  {
    var s := A + [y] + B;
    if d.Some? {
      var k :| 0 <= k < |B| && o.Equiv(B[k], key) && d.value == B[k] && B' == B[..k] + B[k + 1..];
      CutAt(A, y, B, k);
      assert s[|A| + 1 + k] == B[k];
    } else {
      OrderedParts(o, A, y, B);
      forall i | 0 <= i < |s| ensures !o.Equiv(s[i], key) {
        if i < |A| {
          assert s[i] == A[i];
        } else if i == |A| {
          assert s[i] == y;
        } else {
          assert s[i] == B[i - |A| - 1];
        }
      }
    }
  }

  /** Overwriting a node's item with the first of its right part and cutting that
      off there deletes the node's item. */
  lemma CutHere<T>(o: Order<T>, A: seq<T>, y: T, B: seq<T>, key: T)
    requires o.Equiv(y, key) && B != []
    ensures RemovedOne(o, A + [y] + B, key, Some(y), A + [B[0]] + B[1..])
  {
    var s := A + [y] + B;
    var k := |A|;
    assert s[k] == y && s[..k] == A && s[k + 1..] == B;
    assert A + [B[0]] + B[1..] == A + B;
  }

  /** When `moveRedRight` rotated, the node's item moved into the right subtree; if
      the deletion there finds nothing, the item at the top sorts before the key. */
  lemma RotatedBelow<T>(o: Order<T>, A: seq<T>, y: T, B: seq<T>, j: int, key: T)
    requires NonDecreasing(o, A + [y] + B) && 0 <= j < |B| && !o.Lt(key, B[j]) && Lacks(o, B, key)
    ensures o.Lt(y, key)
  {
    var s := A + [y] + B;
    assert s[|A|] == y && s[|A| + 1 + j] == B[j];
  }

  /** The item on top after `leanRight` does not sort after the node's own item. */
  lemma LeanRightBelow<T>(o: Order<T>, h: Tree<T>)
    requires Deletable(h) && h.Node? && NonDecreasing(o, Items(h))
    ensures !o.Lt(h.item, LeanRight(h).item)
  {
    var a := LeanRight(h);
    var s := Items(h);
    assert s[|Items(h.left)|] == h.item;
    assert Items(a) == Items(a.left) + [a.item] + Items(a.right);
    assert s[|Items(a.left)|] == a.item;
  }

  /** The item on top after `leftStep` does not sort before the node's own item. */
  lemma LeftStepAbove<T>(o: Order<T>, h: Tree<T>)
    requires Deletable(h) && h.Node? && h.left.Node? && NonDecreasing(o, Items(h))
    ensures !o.Lt(LeftStep(h).item, h.item)
  {
    var m := LeftStep(h);
    var s := Items(h);
    assert s[|Items(h.left)|] == h.item;
    assert Items(m) == Items(m.left) + [m.item] + Items(m.right);
    assert s[|Items(m.left)|] == m.item;
  }

  /** In an ordered tree, `delete` takes out one item equivalent to the key, the one
      it reports, or reports nothing and keeps the contents when there is none. */
  lemma {:induction false} DeleteItems<T>(o: Order<T>, h: Tree<T>, key: T)
    requires Deletable(h) && (Leaning(h) ==> !o.Lt(key, h.item)) && NonDecreasing(o, Items(h))
    ensures var (t, d) := Delete(o, h, key); RemovedOne(o, Items(h), key, d, Items(t))
    decreases |Items(h)|
  {
    if h.Nil? {
    } else if o.Lt(key, h.item) {
      if h.left.Nil? {
        CutLeft(o, [], h.item, Items(h.right), key, None, []);
      } else {
        var m := LeftStep(h);
        LeftStepAbove(o, h);
        OrderedParts(o, Items(m.left), m.item, Items(m.right));
        DeleteItems(o, m.left, key);
        var (l, d) := Delete(o, m.left, key);
        CutLeft(o, Items(m.left), m.item, Items(m.right), key, d, Items(l));
      }
    } else {
      var a := LeanRight(h);
      LeanRightBelow(o, h);
      OrderedParts(o, Items(a.left), a.item, Items(a.right));
      if !o.Lt(a.item, key) && a.right.Nil? {
        assert Items(h) == [a.item];
        assert Items(h)[..0] + Items(h)[1..] == [];
      } else {
        var rotated := a.right.Node? && Rotates(a);
        var m := if a.right.Node? then RightStep(a) else a;
        var A, B := Items(m.left), Items(m.right);
        OrderedParts(o, A, m.item, B);
        if !rotated && !o.Lt(m.item, key) {
          CutHere(o, A, m.item, B, key);
        } else {
          DeleteItems(o, m.right, key);
          var (rr, d) := Delete(o, m.right, key);
          if rotated && d.None? {
            RotatedBelow(o, A, m.item, B, |Items(m.right.left)|, key);
          }
          CutRight(o, A, m.item, B, key, d, Items(rr));
        }
      }
    }
  }

  /** A node about to take back its left subtree from a deletion: its right subtree is
      valid and as high as the left, and a red right link (left there by
      `moveRedLeft`) sits below a black node whose left link is red. */
  ghost predicate LeftOpen<T>(m: Tree<T>) {
    m.Node? && Valid(m.right) && BH(m.left) == BH(m.right) &&
    (IsRed(m.right) ==> !IsRed(m) && IsRed(m.left)) && (IsRed(m) ==> !IsRed(m.left))
  }

  /** A node about to take back its right subtree from a deletion: its left subtree
      is valid with a black link and as high as the right, and a red node has no red
      child. */
  ghost predicate RightOpen<T>(m: Tree<T>) {
    m.Node? && Valid(m.left) && BH(m.left) == BH(m.right) &&
    (IsRed(m) ==> !IsRed(m.left) && !IsRed(m.right))
  }

  /** `fixUp` after a deletion on the left: a valid subtree of the old height comes
      back, red only where the old left link was red, and `fixUp` rebuilds a valid
      subtree of the node's height, black where the node and its right link were. */
  lemma FixUpLeft<T>(m: Tree<T>, l: Tree<T>)
    requires LeftOpen(m) && Valid(l) && BH(l) == BH(m.left) && (!IsRed(m.left) ==> !IsRed(l))
    ensures var r := FixUp(m.(left := l));
      Valid(r) && BH(r) == BH(m) && (!IsRed(m) && !IsRed(m.right) ==> !IsRed(r))
  {
    if !IsRed(m.right) {
      assert IsRed(l) ==> !IsRed(l.left);
      assert FixUp(m.(left := l)) == m.(left := l);
    } else {
      var R := m.right;
      assert !IsRed(R.left) && !IsRed(R.right) && Valid(R.left) && Valid(R.right) && BH(R.left) == BH(R);
      if IsRed(l) {
        assert Valid(l.(black := true)) && Valid(R.(black := true));
        assert BH(l.(black := true)) == BH(R.(black := true));
        assert FixUp(m.(left := l)) == Node(l.(black := true), m.item, R.(black := true), false);
      } else {
        var y := Node(l, m.item, R.left, false);
        assert LL(y) && Balanced(y) && BH(y) == BH(R.right);
        assert FixUp(m.(left := l)) == Node(y, R.item, R.right, true);
      }
    }
  }

  /** `fixUp` after a deletion on the right: the mirror image of `FixUpLeft`, black
      where the node and its left link were. */
  lemma FixUpRight<T>(m: Tree<T>, rr: Tree<T>)
    requires RightOpen(m) && Valid(rr) && BH(rr) == BH(m.right) && (!IsRed(m.right) ==> !IsRed(rr))
    ensures var r := FixUp(m.(right := rr));
      Valid(r) && BH(r) == BH(m) && (!IsRed(m) && !IsRed(m.left) ==> !IsRed(r))
  {
    if !IsRed(rr) {
      assert IsRed(m.left) ==> !IsRed(m.left.left);
      assert FixUp(m.(right := rr)) == m.(right := rr);
    } else {
      assert !IsRed(rr.left) && !IsRed(rr.right) && Valid(rr.left) && Valid(rr.right) && BH(rr.left) == BH(rr);
      var L := m.left;
      if IsRed(L) {
        assert !IsRed(L.left) && Valid(L.(black := true)) && Valid(rr.(black := true));
        assert BH(L.(black := true)) == BH(rr.(black := true));
        assert FixUp(m.(right := rr)) == Node(L.(black := true), m.item, rr.(black := true), false);
      } else {
        assert FixUp(m.(right := rr)) == Node(Node(L, m.item, rr.left, false), rr.item, rr.right, true);
      }
    }
  }

  /** Before going left from a subtree that can spare an item: the left child it
      descends into can spare one too, and the node is ready to take it back, at the
      same black height. A black node is left as it is. */
  lemma LeftStepShape<T>(h: Tree<T>)
    requires Spare(h) && h.left.Node?
    ensures var m := LeftStep(h);
      LeftOpen(m) && Spare(m.left) && BH(m) == BH(h) && (!IsRed(h) ==> m == h)
  {
    ChildrenValid(h);
    var L, R := h.left, h.right;
    if !IsRed(L) && !IsRed(L.left) {
      assert BH(L) > 0 && R.Node? && !IsRed(R);
      assert LL(L.left) && LL(L.right) && !IsRed(L.right);
      assert LL(R.left) && LL(R.right) && !IsRed(R.right);
      var L' := L.(black := false);
      assert Valid(L') && BH(L') == BH(L) - 1;
      if IsRed(R.left) {
        var x := R.left;
        assert LL(x) && Balanced(x) && BH(x) == BH(R) - 1;
        assert LL(x.left) && LL(x.right) && !IsRed(x.left) && !IsRed(x.right);
        var m := Node(Node(L', h.item, x.left, true), x.item, Node(x.right, R.item, R.right, true), false);
        assert MoveRedLeft(h) == m;
        assert Valid(m.left) && Valid(m.right);
      } else {
        assert MoveRedLeft(h) == Node(L', h.item, R.(black := false), true);
        assert Valid(R.(black := false));
      }
    }
  }

  /** `deleteMin` on a subtree that can spare an item gives back a valid subtree of
      the same black height, black when the subtree was. */
  lemma {:induction false} DeleteMinShape<T>(h: Tree<T>)
    requires Spare(h)
    ensures var r := DeleteMin(h).0;
      Valid(r) && BH(r) == BH(h) && (!IsRed(h) ==> !IsRed(r))
    decreases |Items(h)|
  {
    if h.left.Nil? {
      ChildrenValid(h);
    } else {
      var m := LeftStep(h);
      LeftStepShape(h);
      DeleteMinShape(m.left);
      var l := DeleteMin(m.left).0;
      FixUpLeft(m, l);
      assert DeleteMin(h).0 == FixUp(m.(left := l));
    }
  }

  /** After `leanRight` on a subtree that can spare an item or leans: same height and
      colour, a red node with a black right link or a black one with a red right
      link, and a nil right link only on a red leaf. */
  lemma LeanRightShape<T>(h: Tree<T>)
    requires Spare(h) || Leaning(h)
    ensures var a := LeanRight(h);
      BH(a) == BH(h) && IsRed(a) == IsRed(h) &&
      (IsRed(a) ==> !IsRed(a.right)) && (!IsRed(a) ==> IsRed(a.right)) &&
      (a.right.Nil? ==> a == h)
  {
    ChildrenValid(h);
  }

  /** Before going right: the right child it descends into can spare an item or
      leans, and the node is ready to take it back, at the same black height. A black
      node is left as it is. */
  lemma RightStepShape<T>(a: Tree<T>)
    requires a.Node? && a.right.Node? && Valid(a.left) && Valid(a.right) && !IsRed(a.left)
    requires BH(a.left) == BH(a.right)
    requires (IsRed(a) ==> !IsRed(a.right)) && (!IsRed(a) ==> IsRed(a.right))
    ensures var m := RightStep(a);
      RightOpen(m) && (Spare(m.right) || Leaning(m.right)) && BH(m) == BH(a) && (!IsRed(a) ==> m == a)
  {
    var L, R := a.left, a.right;
    if IsRed(a) && !IsRed(R.left) {
      assert BH(L) > 0 && L.Node?;
      assert LL(L.left) && LL(L.right) && !IsRed(L.right) && Balanced(L.left) && Balanced(L.right);
      if IsRed(L.left) {
        assert !IsRed(L.left.left) && BH(L.left) == BH(L) - 1;
        var m := Node(L.left.(black := true), L.item, Node(L.right, a.item, R.(black := false), true), false);
        assert MoveRedRight(a) == m;
        assert Valid(m.left);
      } else {
        var m := Node(L.(black := false), a.item, R.(black := false), true);
        assert MoveRedRight(a) == m;
        assert Valid(m.left);
      }
    }
  }

  /** `deleteMax` on a subtree that can spare an item, or on a leaning one, gives
      back a valid subtree of the same black height, black when the subtree was. */
  lemma {:induction false} DeleteMaxShape<T>(h: Tree<T>)
    requires Spare(h) || Leaning(h)
    ensures var r := DeleteMax(h).0;
      Valid(r) && BH(r) == BH(h) && (!IsRed(h) ==> !IsRed(r))
    decreases |Items(h)|
  {
    var a := LeanRight(h);
    LeanRightShape(h);
    if a.right.Node? {
      var m := RightStep(a);
      RightStepShape(a);
      DeleteMaxShape(m.right);
      var rr := DeleteMax(m.right).0;
      FixUpRight(m, rr);
      assert DeleteMax(h).0 == FixUp(m.(right := rr));
    }
  }

  /** `delete` on a subtree that can spare an item, or on a leaning one when the key
      does not sort before its item, gives back a valid subtree of the same black
      height, black when the subtree was. */
  lemma {:induction false} DeleteShape<T>(o: Order<T>, h: Tree<T>, key: T)
    requires Spare(h) || (Leaning(h) && !o.Lt(key, h.item))
    ensures var r := Delete(o, h, key).0;
      Valid(r) && BH(r) == BH(h) && (!IsRed(h) ==> !IsRed(r))
    decreases |Items(h)|
  {
    if o.Lt(key, h.item) {
      if h.left.Node? {
        var m := LeftStep(h);
        LeftStepShape(h);
        DeleteShape(o, m.left, key);
        var l := Delete(o, m.left, key).0;
        FixUpLeft(m, l);
        assert Delete(o, h, key).0 == FixUp(m.(left := l));
      }
    } else {
      var a := LeanRight(h);
      LeanRightShape(h);
      if a.right.Nil? {
        ChildrenValid(h);
        FixUpRight(a, Nil);
      } else {
        var m := RightStep(a);
        RightStepShape(a);
        if !Rotates(a) {
          assert !Leaning(m.right);
        }
        if !Rotates(a) && !o.Lt(m.item, key) {
          DeleteMinShape(m.right);
          var (rr, d) := DeleteMin(m.right);
          FixUpRight(m.(item := d.value), rr);
          assert Delete(o, h, key).0 == FixUp(m.(right := rr, item := d.value));
        } else {
          DeleteShape(o, m.right, key);
          var rr := Delete(o, m.right, key).0;
          FixUpRight(m, rr);
          assert Delete(o, h, key).0 == FixUp(m.(right := rr));
        }
      }
    }
  }

  /** A red node whose links are both red, the state `moveRedLeft` and `moveRedRight`
      leave a black root with two black children in when they do not rotate. */
  ghost predicate Opened<T>(m: Tree<T>) {
    m.Node? && IsRed(m) && IsRed(m.left) && IsRed(m.right) && BH(m.left) == BH(m.right)
  }

  /** `fixUp` after a deletion on the left below an opened root rebuilds a balanced
      subtree that is a 2-3 shape below its top. */
  lemma FixUpLeftRoot<T>(m: Tree<T>, l: Tree<T>)
    requires Opened(m) && Valid(m.right) && Valid(l) && BH(l) == BH(m.left)
    ensures var r := FixUp(m.(left := l)); Balanced(r) && LLBelow(r)
  {
    var R := m.right;
    assert !IsRed(R.left) && !IsRed(R.right) && Valid(R.left) && Valid(R.right) && BH(R.left) == BH(R);
    if IsRed(l) {
      assert Valid(l.(black := true)) && Valid(R.(black := true));
      assert FixUp(m.(left := l)) == Node(l.(black := true), m.item, R.(black := true), true);
    } else {
      var y := Node(l, m.item, R.left, false);
      assert LL(y) && Balanced(y) && BH(y) == BH(R.right);
      assert FixUp(m.(left := l)) == Node(y, R.item, R.right, false);
    }
  }

  /** `fixUp` after a deletion on the right below an opened root rebuilds a balanced
      subtree that is a 2-3 shape below its top. */
  lemma FixUpRightRoot<T>(m: Tree<T>, rr: Tree<T>)
    requires Opened(m) && Valid(m.left) && Valid(rr) && BH(rr) == BH(m.right)
    ensures var r := FixUp(m.(right := rr)); Balanced(r) && LLBelow(r)
  {
    var L := m.left;
    assert !IsRed(L.left) && Valid(L.(black := true)) && BH(L.left) == BH(L);
    if IsRed(rr) {
      assert !IsRed(rr.left) && !IsRed(rr.right) && Valid(rr.(black := true));
      assert FixUp(m.(right := rr)) == Node(L.(black := true), m.item, rr.(black := true), true);
    } else {
      assert FixUp(m.(right := rr)) == m.(right := rr);
    }
  }

  /** Going left from a black root whose left link and the one below are black:
      the left child can spare an item afterwards, and the root is ready to take it
      back or opened. */
  lemma LeftStepRoot<T>(h: Tree<T>)
    requires Valid(h) && h.Node? && h.left.Node? && !IsRed(h) && !IsRed(h.left)
    ensures var m := LeftStep(h);
      Spare(m.left) && (LeftOpen(m) || (Opened(m) && Valid(m.right)))
  {
    ChildrenValid(h);
    var L, R := h.left, h.right;
    if !IsRed(L.left) {
      assert BH(L) > 0 && R.Node? && !IsRed(R);
      assert LL(L.left) && LL(L.right) && !IsRed(L.right);
      assert LL(R.left) && LL(R.right) && !IsRed(R.right);
      var L' := L.(black := false);
      assert Valid(L') && BH(L') == BH(L) - 1;
      if IsRed(R.left) {
        var x := R.left;
        assert LL(x) && Balanced(x) && BH(x) == BH(R) - 1;
        assert LL(x.left) && LL(x.right) && !IsRed(x.left) && !IsRed(x.right);
        var m := Node(Node(L', h.item, x.left, true), x.item, Node(x.right, R.item, R.right, true), true);
        assert MoveRedLeft(h) == m;
        assert Valid(m.left) && Valid(m.right);
      } else {
        assert MoveRedLeft(h) == Node(L', h.item, R.(black := false), false);
        assert Valid(R.(black := false));
      }
    }
  }

  /** Going right from a black root whose left link is black: the right child can
      spare an item or leans afterwards, and the root is ready to take it back or
      opened. */
  lemma RightStepRoot<T>(a: Tree<T>)
    requires Valid(a) && a.Node? && a.right.Node? && !IsRed(a) && !IsRed(a.left)
    ensures var m := RightStep(a);
      (Spare(m.right) || Leaning(m.right)) && (RightOpen(m) || (Opened(m) && Valid(m.left)))
  {
    ChildrenValid(a);
    var L, R := a.left, a.right;
    if !IsRed(R.left) {
      assert BH(L) > 0 && L.Node?;
      assert LL(L.left) && LL(L.right) && !IsRed(L.right) && Balanced(L.left) && Balanced(L.right);
      if IsRed(L.left) {
        assert !IsRed(L.left.left) && BH(L.left) == BH(L) - 1;
        var m := Node(L.left.(black := true), L.item, Node(L.right, a.item, R.(black := false), true), true);
        assert MoveRedRight(a) == m;
        assert Valid(m.left);
      } else {
        var m := Node(L.(black := false), a.item, R.(black := false), false);
        assert MoveRedRight(a) == m;
        assert Valid(m.left);
      }
    }
  }

  /** `deleteMin` at the root of a valid tree leaves a tree that is valid once its
      root link is coloured black. */
  lemma DeleteMinRoot<T>(h: Tree<T>)
    requires Valid(h)
    ensures Valid(Blacken(DeleteMin(h).0))
  {
    if Spare(h) {
      DeleteMinShape(h);
    } else if h.Node? && h.left.Node? {
      var m := LeftStep(h);
      LeftStepRoot(h);
      DeleteMinShape(m.left);
      var l := DeleteMin(m.left).0;
      if LeftOpen(m) {
        FixUpLeft(m, l);
      } else {
        FixUpLeftRoot(m, l);
      }
      assert DeleteMin(h).0 == FixUp(m.(left := l));
    }
  }

  /** `deleteMax` at the root of a valid tree leaves a tree that is valid once its
      root link is coloured black. */
  lemma DeleteMaxRoot<T>(h: Tree<T>)
    requires Valid(h)
    ensures Valid(Blacken(DeleteMax(h).0))
  {
    if Spare(h) {
      DeleteMaxShape(h);
    } else if h.Node? {
      ChildrenValid(h);
      var a := LeanRight(h);
      assert a == h;
      if a.right.Node? {
        var m := RightStep(a);
        RightStepRoot(a);
        DeleteMaxShape(m.right);
        var rr := DeleteMax(m.right).0;
        if RightOpen(m) {
          FixUpRight(m, rr);
        } else {
          FixUpRightRoot(m, rr);
        }
        assert DeleteMax(h).0 == FixUp(m.(right := rr));
      }
    }
  }

  /** `delete` at the root of a valid tree leaves a tree that is valid once its root
      link is coloured black. */
  lemma DeleteRoot<T>(o: Order<T>, h: Tree<T>, key: T)
    requires Valid(h)
    ensures Valid(Blacken(Delete(o, h, key).0))
  {
    if Spare(h) {
      DeleteShape(o, h, key);
    } else if h.Node? {
      ChildrenValid(h);
      if o.Lt(key, h.item) {
        if h.left.Node? {
          var m := LeftStep(h);
          LeftStepRoot(h);
          DeleteShape(o, m.left, key);
          var l := Delete(o, m.left, key).0;
          if LeftOpen(m) {
            FixUpLeft(m, l);
          } else {
            FixUpLeftRoot(m, l);
          }
          assert Delete(o, h, key).0 == FixUp(m.(left := l));
        }
      } else {
        var a := LeanRight(h);
        assert a == h;
        if a.right.Nil? {
          FixUpRight(a, Nil);
        } else {
          var m := RightStep(a);
          RightStepRoot(a);
          if !Rotates(a) {
            assert !Leaning(m.right);
          }
          if !Rotates(a) && !o.Lt(m.item, key) {
            DeleteMinShape(m.right);
            var (rr, d) := DeleteMin(m.right);
            if RightOpen(m) {
              FixUpRight(m.(item := d.value), rr);
            } else {
              FixUpRightRoot(m.(item := d.value), rr);
            }
            assert Delete(o, h, key).0 == FixUp(m.(right := rr, item := d.value));
          } else {
            DeleteShape(o, m.right, key);
            var rr := Delete(o, m.right, key).0;
            if RightOpen(m) {
              FixUpRight(m, rr);
            } else {
              FixUpRightRoot(m, rr);
            }
            assert Delete(o, h, key).0 == FixUp(m.(right := rr));
          }
        }
      }
    }
  }

  /** Taking one item out of an ordered sequence leaves it ordered. */
  lemma CutOrdered<T>(o: Order<T>, s: seq<T>, k: nat)
    requires NonDecreasing(o, s) && k < |s|
    ensures NonDecreasing(o, s[..k] + s[k + 1..])
  {
    var t := s[..k] + s[k + 1..];
    forall i, j | 0 <= i < j < |t| ensures !o.Lt(t[j], t[i]) {
      var i', j' := if i < k then i else i + 1, if j < k then j else j + 1;
      assert t[i] == s[i'] && t[j] == s[j'];
    }
  }

  /** On a tree without equivalent items, `delete` is the removal of the key from the
      sorted contents, handing back what a lookup of the key finds. */
  lemma DeleteRemoves<T>(o: Order<T>, h: Tree<T>, key: T)
    requires Deletable(h) && (Leaning(h) ==> !o.Lt(key, h.item))
    requires Ascending(o, Items(h))
    ensures var (t, d) := Delete(o, h, key);
      Items(t) == Removed(o, Items(h), key) && d == Lookup(o, Items(h), key)
  {
    var s := Items(h);
    DeleteItems(o, h, key);
    var (t, d) := Delete(o, h, key);
    if d.Some? {
      var k :| 0 <= k < |s| && o.Equiv(s[k], key) && d.value == s[k] && Items(t) == s[..k] + s[k + 1..];
      BoundsAt(o, s, key, k);
    } else {
      var p := LowerBound(o, s, key);
      if p < |s| {
        assert !o.Equiv(s[p], key);
      }
    }
  }
}
