/** The node layer of the left-leaning red-black tree: a node value, the colour
    invariants of a 2-3 tree drawn as a binary tree, and the rotations, colour flips
    and repairs that the tree's recursive operations are assembled from. */
module RedBlackNodes {
  import opened Ordering

  /** A node and the link above it, or the empty `nil` tree. `black` is the colour of
      the link from the parent; a new node is red. */
  datatype Tree<T> = Nil | Node(left: Tree<T>, item: T, right: Tree<T>, black: bool)

  /** A nil link counts as black. */
  predicate IsRed<T>(t: Tree<T>) {
    t.Node? && !t.black
  }

  /** The items in order: the left subtree, the node's own item, the right subtree. */
  function Items<T>(t: Tree<T>): seq<T> {
    if t.Nil? then [] else Items(t.left) + [t.item] + Items(t.right)
  }

  /** The number of black links down the left spine, the node's own link included. */
  function BH<T>(t: Tree<T>): nat {
    if t.Nil? then 0 else BH(t.left) + (if t.black then 1 else 0)
  }

  /** Every way down from a node to a nil link crosses the same number of black links. */
  ghost predicate Balanced<T>(t: Tree<T>) {
    t.Nil? || (Balanced(t.left) && Balanced(t.right) && BH(t.left) == BH(t.right))
  }

  /** The 2-3 shape: no right link is red, and no red link hangs below a red left link. */
  ghost predicate LL<T>(t: Tree<T>) {
    t.Nil? || (LL(t.left) && LL(t.right) && !IsRed(t.right) && (IsRed(t) ==> !IsRed(t.left)))
  }

  /** The shape of every subtree of a left-leaning red-black tree. */
  ghost predicate Valid<T>(t: Tree<T>) {
    Balanced(t) && LL(t)
  }

  /** The 2-3 shape everywhere below the top node, which may still be a red link with
      a red left link under it: what an insertion hands back to its parent. */
  ghost predicate LLBelow<T>(t: Tree<T>) {
    t.Nil? || (LL(t.left) && LL(t.right) && !IsRed(t.right))
  }

  /** A subtree that can give up an item without losing height: a red node, or the
      black top of a 3-node. The deletions descend only into such subtrees. */
  ghost predicate Spare<T>(t: Tree<T>) {
    t.Node? && Valid(t) && (IsRed(t) || IsRed(t.left))
  }

  /** A black node whose red link leans right. `moveRedRight` leaves one below the
      node it rotates up; the deletions that go right may meet it. */
  ghost predicate Leaning<T>(t: Tree<T>) {
    t.Node? && t.black && !IsRed(t.left) && IsRed(t.right) &&
    LL(t.left) && LL(t.right) && Balanced(t)
  }

  /** What the tree does to its root after every update: colour its link black. */
  function Blacken<T>(t: Tree<T>): (r: Tree<T>)
    ensures Items(r) == Items(t) && !IsRed(r)
    ensures LLBelow(t) ==> LL(r)
    ensures Balanced(t) ==> Balanced(r)
  {
    if t.Nil? then Nil else t.(black := true)
  }

  /** rotateLeft: the red right link turns into a left link. The new top takes the old
      top's colour and the old top becomes red; the order of the items is kept.
      Rotating across a black link panics, and so does one across a nil link: both
      are excluded by the precondition. */
  function RotateLeft<T>(h: Tree<T>): (r: Tree<T>)
    requires h.Node? && IsRed(h.right)
    ensures r.Node? && r.left.Node?
    ensures Items(r) == Items(h)
    ensures r.black == h.black && IsRed(r.left)
    ensures Balanced(h) ==> Balanced(r) && BH(r) == BH(h)
  {
    var x := h.right;
    var y := Node(h.left, h.item, x.left, false);
    Assoc(Items(h.left) + [h.item], Items(x.left), [x.item] + Items(x.right));
    assert Balanced(h) ==> Balanced(x) && BH(h.left) == BH(x.left) == BH(x.right);
    Node(y, x.item, x.right, h.black)
  }

  /** rotateRight: the red left link turns into a right link, with the same colour
      hand-over and the same panic as `RotateLeft`. */
  function RotateRight<T>(h: Tree<T>): (r: Tree<T>)
    requires h.Node? && IsRed(h.left)
    ensures r.Node? && r.right.Node?
    ensures Items(r) == Items(h)
    ensures r.black == h.black && IsRed(r.right)
    ensures Balanced(h) ==> Balanced(r) && BH(r) == BH(h)
  {
    var x := h.left;
    var y := Node(x.right, h.item, h.right, false);
    Assoc(Items(x.left) + [x.item], Items(x.right), [h.item] + Items(h.right));
    assert Balanced(h) ==> Balanced(x) && BH(x.left) == BH(x.right) == BH(h.right);
    Node(x.left, x.item, y, h.black)
  }

  /** flip: a node and both its links change colour; both children must be present. */
  function Flip<T>(h: Tree<T>): (r: Tree<T>)
    requires h.Node? && h.left.Node? && h.right.Node?
    ensures r.Node? && r.left.Node? && r.right.Node?
    ensures Items(r) == Items(h)
    ensures r.black == !h.black && r.left.black == !h.left.black && r.right.black == !h.right.black
    ensures r.item == h.item && Items(r.left) == Items(h.left) && Items(r.right) == Items(h.right)
  {
    Node(h.left.(black := !h.left.black), h.item, h.right.(black := !h.right.black), !h.black)
  }

  /** moveRedLeft: borrow from the right so that the left link or one below it is red.
      Both children must be present, and the rotation it may do is across the right
      link it has just turned red, so that link must have been black. */
  function MoveRedLeft<T>(h: Tree<T>): (r: Tree<T>)
    requires h.Node? && h.left.Node? && h.right.Node?
    requires IsRed(h.right.left) ==> h.right.black
    ensures r.Node?
    ensures Items(r) == Items(h)
    ensures |Items(r.left)| >= |Items(h.left)|
    ensures r.item == h.item || |Items(r.left)| > |Items(h.left)|
  {
    var f := Flip(h);
    if IsRed(f.right.left) then
      var g := f.(right := RotateRight(f.right));
      Assoc(Items(f.left), [f.item], Items(f.right));
      Flip(RotateLeft(g))
    else f
  }

  /** moveRedRight: borrow from the left so that the right link or one below it is red,
      with the same demands mirrored. */
  function MoveRedRight<T>(h: Tree<T>): (r: Tree<T>)
    requires h.Node? && h.left.Node? && h.right.Node?
    requires IsRed(h.left.left) ==> h.left.black
    ensures r.Node?
    ensures Items(r) == Items(h)
    ensures |Items(r.left)| <= |Items(h.left)|
    ensures !IsRed(h.left.left) ==> r.item == h.item && |Items(r.left)| == |Items(h.left)|
    ensures IsRed(h.left.left) ==> |Items(r.left)| < |Items(h.left)| && r.right.Node? && r.right.item == h.item
  {
    var f := Flip(h);
    if IsRed(f.left.left) then Flip(RotateRight(f)) else f
  }

  /** fixUp: on the way back up from a deletion, turn a red right link left, split a
      pair of red left links and push a red pair up. It never panics. */
  function FixUp<T>(h: Tree<T>): (r: Tree<T>)
    requires h.Node?
    ensures r.Node?
    ensures Items(r) == Items(h)
  {
    var a := if IsRed(h.right) then RotateLeft(h) else h;
    var b := if IsRed(a.left) && IsRed(a.left.left) then RotateRight(a) else a;
    if IsRed(b.left) && IsRed(b.right) then Flip(b) else b
  }

  /** walkUpRot23: the same repair on the way back up from an insertion, except that a
      red right link is turned left only when the left link is black. */
  function WalkUpRot23<T>(h: Tree<T>): (r: Tree<T>)
    requires h.Node?
    ensures r.Node?
    ensures Items(r) == Items(h)
  {
    var a := if IsRed(h.right) && !IsRed(h.left) then RotateLeft(h) else h;
    var b := if IsRed(a.left) && IsRed(a.left.left) then RotateRight(a) else a;
    if IsRed(b.left) && IsRed(b.right) then Flip(b) else b
  }

  /** The walk-up repair after an insertion below `h`: when one child came back with
      at most a red pair on top, and such a pair only sits below a black node whose
      right link is black, the repair rebuilds a subtree of the same black height that
      is a 2-3 shape below its top, and wholly one when `h` is black. */
  lemma WalkUpRepairs<T>(h: Tree<T>)
    requires h.Node? && Balanced(h.left) && Balanced(h.right) && BH(h.left) == BH(h.right)
    requires LLBelow(h.left) && LLBelow(h.right)
    requires !(IsRed(h.right) && IsRed(h.right.left))
    requires IsRed(h.left) && IsRed(h.left.left) ==> h.black && !IsRed(h.right)
    requires !h.black ==> !(IsRed(h.left) && IsRed(h.right))
    ensures var r := WalkUpRot23(h);
      Balanced(r) && BH(r) == BH(h) && LLBelow(r) && (h.black ==> LL(r))
  {
  }

  /** The order of a node's items, split around the node's own item. */
  lemma OrderedParts<T>(o: Order<T>, L: seq<T>, y: T, R: seq<T>)
    requires NonDecreasing(o, L + [y] + R)
    ensures NonDecreasing(o, L) && NonDecreasing(o, R)
    ensures forall i :: 0 <= i < |L| ==> !o.Lt(y, L[i])
    ensures forall i :: 0 <= i < |R| ==> !o.Lt(R[i], y)
  {
    var s := L + [y] + R;
    assert forall i :: 0 <= i < |L| ==> s[i] == L[i];
    assert forall i :: 0 <= i < |R| ==> s[|L| + 1 + i] == R[i];
    assert s[|L|] == y;
  }

  /** An item `x` that sorts before a node's own item `y` ends up where it would in
      the node's left part. */
  lemma UpperBoundLeft<T>(o: Order<T>, L: seq<T>, y: T, R: seq<T>, x: T)
    requires NonDecreasing(o, L + [y] + R) && o.Lt(x, y)
    ensures UpperBound(o, L + [y] + R, x) == UpperBound(o, L, x)
  {
    var s, u := L + [y] + R, UpperBound(o, L, x);
    forall i | 0 <= i < u ensures !o.Lt(x, s[i]) {
      assert s[i] == L[i];
    }
    forall i | u <= i < |s| ensures o.Lt(x, s[i]) {
      if i < |L| {
        assert s[i] == L[i] && s[u] == L[u];
        assert !o.Lt(s[i], s[u]);
      } else {
        assert s[|L|] == y;
        assert !o.Lt(s[i], s[|L|]);
      }
    }
    UpperBoundUnique(o, s, x, u);
  }

  /** An item `x` that does not sort before a node's own item `y` ends up after it,
      where it would in the node's right part. */
  lemma UpperBoundRight<T>(o: Order<T>, L: seq<T>, y: T, R: seq<T>, x: T)
    requires NonDecreasing(o, L + [y] + R) && !o.Lt(x, y)
    ensures UpperBound(o, L + [y] + R, x) == |L| + 1 + UpperBound(o, R, x)
  {
    var s, u := L + [y] + R, UpperBound(o, R, x);
    var k := |L| + 1 + u;
    forall i | 0 <= i < k ensures !o.Lt(x, s[i]) {
      if i < |L| {
        assert s[|L|] == y;
        assert !o.Lt(s[|L|], s[i]);
      } else if i > |L| {
        assert s[i] == R[i - |L| - 1];
      }
    }
    forall i | k <= i < |s| ensures o.Lt(x, s[i]) {
      assert s[i] == R[i - |L| - 1] && s[k] == R[u];
      assert !o.Lt(s[i], s[k]);
    }
    UpperBoundUnique(o, s, x, k);
  }

  /** Inserting at position `u` of the left part of `s == L + [y] + R`. */
  lemma SpliceLeft<T>(s: seq<T>, L: seq<T>, y: T, R: seq<T>, u: nat, x: T)
    requires s == L + [y] + R && u <= |L|
    ensures (L[..u] + [x] + L[u..]) + [y] + R == s[..u] + [x] + s[u..]
  {
    assert s[..u] == L[..u];
    assert s[u..] == L[u..] + [y] + R;
  }

  /** Inserting at position `u` of the right part of `s == L + [y] + R`. */
  lemma SpliceRight<T>(s: seq<T>, L: seq<T>, y: T, R: seq<T>, u: nat, x: T)
    requires s == L + [y] + R && u <= |R|
    ensures L + [y] + (R[..u] + [x] + R[u..]) == s[..|L| + 1 + u] + [x] + s[|L| + 1 + u..]
  {
    var k := |L| + 1 + u;
    assert s[..k] == L + [y] + R[..u];
    assert s[k..] == R[u..];
  }

  /** Inserting `x` at its upper bound keeps a sequence in order. */
  lemma SpliceOrdered<T>(o: Order<T>, s: seq<T>, x: T)
    requires NonDecreasing(o, s)
    ensures var u := UpperBound(o, s, x); NonDecreasing(o, s[..u] + [x] + s[u..])
  {
    var u := UpperBound(o, s, x);
    var t := s[..u] + [x] + s[u..];
    forall i, j | 0 <= i < j < |t| ensures !o.Lt(t[j], t[i]) {
      if j < u {
        assert t[i] == s[i] && t[j] == s[j];
      } else if j == u {
        assert t[i] == s[i];
      } else if i < u {
        assert t[i] == s[i] && t[j] == s[j - 1];
        assert o.Lt(x, s[u]);
      } else if i == u {
        assert t[j] == s[j - 1];
        assert !o.Lt(s[j - 1], s[u]);
      } else {
        assert t[i] == s[i - 1] && t[j] == s[j - 1];
      }
    }
  }
}
