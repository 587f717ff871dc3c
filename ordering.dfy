/** The item ordering both containers are built on, the sorted-sequence view of their
    contents, and the visitor protocol of their traversals. */
module Ordering {

  /** Go's `(value, ok)` pairs: `None` stands for `(zero value, false)`. */
  datatype Option<+T> = None | Some(value: T)

  /** The comparator `less(a, b)` a container is built with. It is given by a rank:
      `a` sorts before `b` exactly when its rank is smaller. Every strict weak order
      over a countable set of items arises this way, so this is how the containers'
      requirement that `less` be a strict total order is modelled. Two items with the
      same rank are equivalent, although they may be different values. */
  datatype Order<-T> = Order(rank: T -> real) {
    predicate Lt(a: T, b: T) { rank(a) < rank(b) }

    /** Neither sorts before the other: the containers treat them as one key. */
    predicate Equiv(a: T, b: T) { !Lt(a, b) && !Lt(b, a) }
  }

  /** Strictly ascending under `o`: no two items are equivalent. */
  ghost predicate Ascending<T>(o: Order<T>, s: seq<T>) {
    forall i, j :: 0 <= i < j < |s| ==> o.Lt(s[i], s[j])
  }

  /** Ascending up to equivalence: duplicates are allowed. */
  ghost predicate NonDecreasing<T>(o: Order<T>, s: seq<T>) {
    forall i, j :: 0 <= i < j < |s| ==> !o.Lt(s[j], s[i])
  }

  /** No item of `s` is equivalent to `x`. */
  ghost predicate Lacks<T>(o: Order<T>, s: seq<T>, x: T) {
    forall i :: 0 <= i < |s| ==> !o.Equiv(s[i], x)
  }

  /** The position of the first item that does not sort before `x`. */
  function LowerBound<T>(o: Order<T>, s: seq<T>, x: T): (k: nat)
    ensures k <= |s|
    ensures forall i :: 0 <= i < k ==> o.Lt(s[i], x)
    ensures k < |s| ==> !o.Lt(s[k], x)
  {
    if s == [] || !o.Lt(s[0], x) then 0 else 1 + LowerBound(o, s[1..], x)
  }

  /** The position of the first item that sorts after `x`. */
  function UpperBound<T>(o: Order<T>, s: seq<T>, x: T): (k: nat)
    ensures k <= |s|
    ensures forall i :: 0 <= i < k ==> !o.Lt(x, s[i])
    ensures k < |s| ==> o.Lt(x, s[k])
  {
    if s == [] || o.Lt(x, s[0]) then 0 else 1 + UpperBound(o, s[1..], x)
  }

  /** In an ascending sequence the lower bound splits it: everything before sorts
      before `x`, nothing from it on does. */
  lemma LowerBoundSplits<T>(o: Order<T>, s: seq<T>, x: T)
    requires NonDecreasing(o, s)
    ensures forall i :: LowerBound(o, s, x) <= i < |s| ==> !o.Lt(s[i], x)
  {
  }

  /** When an ascending sequence holds nothing equivalent to `x`, everything from the
      lower bound on sorts after `x`. */
  lemma Gap<T>(o: Order<T>, s: seq<T>, x: T)
    requires Ascending(o, s) && !Holds(o, s, x)
    ensures forall i :: LowerBound(o, s, x) <= i < |s| ==> o.Lt(x, s[i])
  {
    var k := LowerBound(o, s, x);
    if k < |s| {
      forall i | k <= i < |s| ensures o.Lt(x, s[i]) {
        if i > k {
          assert o.Lt(s[k], s[i]);
        }
      }
    }
  }

  /** Any position that splits an ascending sequence in that way is its lower bound. */
  lemma {:induction false} LowerBoundUnique<T>(o: Order<T>, s: seq<T>, x: T, p: int)
    requires 0 <= p <= |s|
    requires forall i :: 0 <= i < p ==> o.Lt(s[i], x)
    requires forall i :: p <= i < |s| ==> !o.Lt(s[i], x)
    ensures LowerBound(o, s, x) == p
  {
    if p > 0 {
      LowerBoundUnique(o, s[1..], x, p - 1);
    }
  }

  /** Any position that splits a sequence into "not after `x`" and "after `x`" is
      its upper bound. */
  lemma {:induction false} UpperBoundUnique<T>(o: Order<T>, s: seq<T>, x: T, p: int)
    requires 0 <= p <= |s|
    requires forall i :: 0 <= i < p ==> !o.Lt(x, s[i])
    requires forall i :: p <= i < |s| ==> o.Lt(x, s[i])
    ensures UpperBound(o, s, x) == p
  {
    if p > 0 {
      UpperBoundUnique(o, s[1..], x, p - 1);
    }
  }

  /** Whether `s` holds an item equivalent to `x`, which in an ascending sequence can
      only sit at the lower bound. */
  predicate Holds<T>(o: Order<T>, s: seq<T>, x: T) {
    var k := LowerBound(o, s, x);
    k < |s| && !o.Lt(x, s[k])
  }

  /** The item of `s` equivalent to `x`, if there is one. */
  function Lookup<T>(o: Order<T>, s: seq<T>, x: T): (r: Option<T>)
    requires Ascending(o, s)
    ensures r.Some? <==> exists i :: 0 <= i < |s| && o.Equiv(s[i], x)
    ensures r.Some? ==> r.value in s && o.Equiv(r.value, x)
    ensures r.Some? == Holds(o, s, x)
  {
    var k := LowerBound(o, s, x);
    if k < |s| && !o.Lt(x, s[k]) then Some(s[k]) else None
  }

  /** The contents after an upsert of `x`: an equivalent item is overwritten where it
      stands, otherwise `x` is inserted at its place in the order. */
  function Upserted<T>(o: Order<T>, s: seq<T>, x: T): (r: seq<T>)
    requires Ascending(o, s)
    ensures Ascending(o, r)
    ensures x in r
    ensures |r| == if Holds(o, s, x) then |s| else |s| + 1
    ensures forall y :: y in s && !o.Equiv(y, x) ==> y in r
    ensures forall y :: y in r ==> y == x || y in s
  {
    var k := LowerBound(o, s, x);
    if k < |s| && !o.Lt(x, s[k]) then
      var r := s[k := x];
      assert r[k] == x && forall i :: 0 <= i < |s| && i != k ==> r[i] == s[i];
      r
    else
      s[..k] + [x] + s[k..]
  }

  /** The contents after deleting the item equivalent to `x`, if there is one. */
  function Removed<T>(o: Order<T>, s: seq<T>, x: T): (r: seq<T>)
    requires Ascending(o, s)
    ensures Ascending(o, r)
    ensures |r| == if Holds(o, s, x) then |s| - 1 else |s|
    ensures forall y :: y in r ==> y in s && !o.Equiv(y, x)
    ensures forall y :: y in s && !o.Equiv(y, x) ==> y in r
  {
    var k := LowerBound(o, s, x);
    if k < |s| && !o.Lt(x, s[k]) then s[..k] + s[k + 1..] else s
  }

  /** Everything in an ascending sequence up to `P`'s last item sorts before `x` when
      that item does. */
  lemma Below<T>(o: Order<T>, P: seq<T>, R: seq<T>, x: T)
    requires Ascending(o, P + R)
    requires P != [] ==> o.Lt(P[|P| - 1], x)
    ensures forall k :: 0 <= k < |P| ==> o.Lt(P[k], x)
  {
    forall k | 0 <= k < |P| ensures o.Lt(P[k], x) {
      if k < |P| - 1 {
        assert o.Lt((P + R)[k], (P + R)[|P| - 1]);
      }
    }
  }

  /** Everything in an ascending sequence from `Q`'s first item on sorts after `x`
      when that item does. */
  lemma Above<T>(o: Order<T>, L: seq<T>, Q: seq<T>, x: T)
    requires Ascending(o, L + Q)
    requires Q != [] ==> o.Lt(x, Q[0])
    ensures forall k :: 0 <= k < |Q| ==> o.Lt(x, Q[k])
  {
    forall k | 0 <= k < |Q| ensures o.Lt(x, Q[k]) {
      if k > 0 {
        assert o.Lt((L + Q)[|L|], (L + Q)[|L| + k]);
      }
    }
  }

  lemma AscendingInfix<T>(o: Order<T>, P: seq<T>, W: seq<T>, Q: seq<T>)
    requires Ascending(o, P + W + Q)
    ensures Ascending(o, W)
  {
    forall i, j | 0 <= i < j < |W| ensures o.Lt(W[i], W[j]) {
      assert W[i] == (P + W + Q)[|P| + i] && W[j] == (P + W + Q)[|P| + j];
    }
  }

  /** Where `x` belongs in `P + W + Q` when `P` sorts wholly before it and `Q` after. */
  lemma LowerBoundInside<T>(o: Order<T>, P: seq<T>, W: seq<T>, Q: seq<T>, x: T)
    requires Ascending(o, P + W + Q)
    requires forall k :: 0 <= k < |P| ==> o.Lt(P[k], x)
    requires forall k :: 0 <= k < |Q| ==> o.Lt(x, Q[k])
    ensures LowerBound(o, P + W + Q, x) == |P| + LowerBound(o, W, x)
  {
    var s, kw := P + W + Q, LowerBound(o, W, x);
    AscendingInfix(o, P, W, Q);
    LowerBoundSplits(o, W, x);
    forall i | 0 <= i < |P| + kw ensures o.Lt(s[i], x) {
      if i >= |P| {
        assert s[i] == W[i - |P|];
      }
    }
    forall i | |P| + kw <= i < |s| ensures !o.Lt(s[i], x) {
      if i < |P| + |W| {
        assert s[i] == W[i - |P|];
      } else {
        assert s[i] == Q[i - |P| - |W|];
      }
    }
    LowerBoundUnique(o, s, x, |P| + kw);
  }

  /** Where `x` ends in `P + W + Q` when `P` sorts wholly before it and `Q` after. */
  lemma UpperBoundInside<T>(o: Order<T>, P: seq<T>, W: seq<T>, Q: seq<T>, x: T)
    requires Ascending(o, P + W + Q)
    requires forall k :: 0 <= k < |P| ==> o.Lt(P[k], x)
    requires forall k :: 0 <= k < |Q| ==> o.Lt(x, Q[k])
    ensures UpperBound(o, P + W + Q, x) == |P| + UpperBound(o, W, x)
  {
    var s, kw := P + W + Q, UpperBound(o, W, x);
    AscendingInfix(o, P, W, Q);
    forall i | 0 <= i < |P| + kw ensures !o.Lt(x, s[i]) {
      if i >= |P| {
        assert s[i] == W[i - |P|];
      }
    }
    forall i | |P| + kw <= i < |s| ensures o.Lt(x, s[i]) {
      if i < |P| + |W| {
        assert s[i] == W[i - |P|];
        if i > |P| + kw {
          assert o.Lt(W[kw], W[i - |P|]);
        }
      } else {
        assert s[i] == Q[i - |P| - |W|];
      }
    }
    UpperBoundUnique(o, s, x, |P| + kw);
  }

  /** An item equivalent to `x` in an ascending sequence is where both bounds of `x`
      meet it: the lower bound at it, the upper bound just after it. */
  lemma BoundsAt<T>(o: Order<T>, s: seq<T>, x: T, p: int)
    requires Ascending(o, s) && 0 <= p < |s| && o.Equiv(s[p], x)
    ensures LowerBound(o, s, x) == p && UpperBound(o, s, x) == p + 1
  {
    forall q | 0 <= q < p ensures o.Lt(s[q], x) {
      assert o.Lt(s[q], s[p]);
    }
    forall q | p <= q < |s| ensures !o.Lt(s[q], x) {
      if q > p {
        assert o.Lt(s[p], s[q]);
      }
    }
    LowerBoundUnique(o, s, x, p);
    forall q | 0 <= q < p + 1 ensures !o.Lt(x, s[q]) {
      if q < p {
        assert o.Lt(s[q], s[p]);
      }
    }
    forall q | p + 1 <= q < |s| ensures o.Lt(x, s[q]) {
      assert o.Lt(s[p], s[q]);
    }
    UpperBoundUnique(o, s, x, p + 1);
  }

  /** An upsert into `P + W + Q` happens inside `W` when `P` sorts wholly before the
      item and `Q` after it. */
  lemma UpsertedInside<T>(o: Order<T>, P: seq<T>, W: seq<T>, Q: seq<T>, x: T)
    requires Ascending(o, P + W + Q)
    requires forall k :: 0 <= k < |P| ==> o.Lt(P[k], x)
    requires forall k :: 0 <= k < |Q| ==> o.Lt(x, Q[k])
    ensures Ascending(o, W)
    ensures Upserted(o, P + W + Q, x) == P + Upserted(o, W, x) + Q
    ensures Lookup(o, P + W + Q, x) == Lookup(o, W, x)
  {
    var s, kw := P + W + Q, LowerBound(o, W, x);
    AscendingInfix(o, P, W, Q);
    LowerBoundInside(o, P, W, Q, x);
    var k := |P| + kw;
    if kw < |W| {
      assert s[k] == W[kw];
    } else if k < |s| {
      assert s[k] == Q[0];
    }
    if kw < |W| && !o.Lt(x, W[kw]) {
      assert s[k := x] == P + W[kw := x] + Q;
    } else {
      assert Upserted(o, s, x) == s[..k] + [x] + s[k..];
      SpliceInside(P, W, Q, kw, x);
    }
  }

  /** Inserting at position `kw` of `W` inside `P + W + Q`. */
  lemma SpliceInside<T>(P: seq<T>, W: seq<T>, Q: seq<T>, kw: nat, x: T)
    requires kw <= |W|
    ensures var s, k := P + W + Q, |P| + kw;
      s[..k] + [x] + s[k..] == P + (W[..kw] + [x] + W[kw..]) + Q
  {
    var s, k := P + W + Q, |P| + kw;
    var L, R := s[..k] + [x] + s[k..], P + (W[..kw] + [x] + W[kw..]) + Q;
    assert |L| == |R|;
    forall i | 0 <= i < |L| ensures L[i] == R[i] {
      if i < k {
        assert L[i] == s[i];
      } else if i > k {
        assert L[i] == s[i - 1];
      }
    }
  }

  /** An upsert of an item equivalent to `y` in `P + [y] + Q` overwrites `y`. */
  lemma UpsertedAt<T>(o: Order<T>, P: seq<T>, y: T, Q: seq<T>, x: T)
    requires Ascending(o, P + [y] + Q)
    requires o.Equiv(y, x)
    ensures Upserted(o, P + [y] + Q, x) == P + [x] + Q
    ensures Lookup(o, P + [y] + Q, x) == Some(y)
  {
    var s := P + [y] + Q;
    forall k | 0 <= k < |P| ensures o.Lt(P[k], x) {
      assert s[k] == P[k] && s[|P|] == y;
    }
    forall k | 0 <= k < |Q| ensures o.Lt(x, Q[k]) {
      assert s[|P| + 1 + k] == Q[k] && s[|P|] == y;
    }
    UpsertedInside(o, P, [y], Q, x);
  }

  /** A deletion from `P + W + Q` happens inside `W` when `P` sorts wholly before the
      key and `Q` after it. */
  lemma RemovedInside<T>(o: Order<T>, P: seq<T>, W: seq<T>, Q: seq<T>, x: T)
    requires Ascending(o, P + W + Q)
    requires forall k :: 0 <= k < |P| ==> o.Lt(P[k], x)
    requires forall k :: 0 <= k < |Q| ==> o.Lt(x, Q[k])
    ensures Ascending(o, W)
    ensures Removed(o, P + W + Q, x) == P + Removed(o, W, x) + Q
    ensures Lookup(o, P + W + Q, x) == Lookup(o, W, x)
  {
    var s, kw := P + W + Q, LowerBound(o, W, x);
    AscendingInfix(o, P, W, Q);
    LowerBoundInside(o, P, W, Q, x);
    var k := |P| + kw;
    if kw < |W| {
      assert s[k] == W[kw];
    } else if k < |s| {
      assert s[k] == Q[0];
    }
    if kw < |W| && !o.Lt(x, W[kw]) {
      assert Removed(o, s, x) == s[..k] + s[k + 1..];
      CutInside(P, W, Q, kw);
    }
  }

  /** Removing position `kw` of `W` inside `P + W + Q`. */
  lemma CutInside<T>(P: seq<T>, W: seq<T>, Q: seq<T>, kw: nat)
    requires kw < |W|
    ensures var s, k := P + W + Q, |P| + kw;
      s[..k] + s[k + 1..] == P + (W[..kw] + W[kw + 1..]) + Q
  {
    var s, k := P + W + Q, |P| + kw;
    var L, R := s[..k] + s[k + 1..], P + (W[..kw] + W[kw + 1..]) + Q;
    assert |L| == |R|;
    forall i | 0 <= i < |L| ensures L[i] == R[i] {
      if i < k {
        assert L[i] == s[i];
      } else {
        assert L[i] == s[i + 1];
      }
    }
  }

  /** Deleting the key equivalent to `y` from `P + [y] + Q` leaves `P + Q`. */
  lemma RemovedAt<T>(o: Order<T>, P: seq<T>, y: T, Q: seq<T>, x: T)
    requires Ascending(o, P + [y] + Q)
    requires o.Equiv(y, x)
    ensures Removed(o, P + [y] + Q, x) == P + Q
    ensures Lookup(o, P + [y] + Q, x) == Some(y)
  {
    var s := P + [y] + Q;
    forall k | 0 <= k < |P| ensures o.Lt(P[k], x) {
      assert s[k] == P[k] && s[|P|] == y;
    }
    forall k | 0 <= k < |Q| ensures o.Lt(x, Q[k]) {
      assert s[|P| + 1 + k] == Q[k] && s[|P|] == y;
    }
    RemovedInside(o, P, [y], Q, x);
  }

  /** Deleting the key of an item of an ascending sequence removes exactly that item. */
  lemma RemovedIndex<T>(o: Order<T>, s: seq<T>, k: nat)
    requires Ascending(o, s) && k < |s|
    ensures Lookup(o, s, s[k]) == Some(s[k])
    ensures Removed(o, s, s[k]) == s[..k] + s[k + 1..]
  {
    assert s == s[..k] + [s[k]] + s[k + 1..];
    RemovedAt(o, s[..k], s[k], s[k + 1..], s[k]);
  }

  /** An item sorting after all of an ascending sequence is new to it and is appended. */
  lemma UpsertedLast<T>(o: Order<T>, s: seq<T>, x: T)
    requires Ascending(o, s) && (s != [] ==> o.Lt(s[|s| - 1], x))
    ensures Upserted(o, s, x) == s + [x]
    ensures Lookup(o, s, x) == None
  {
    forall i | 0 <= i < |s| ensures o.Lt(s[i], x) {
      if i < |s| - 1 {
        assert o.Lt(s[i], s[|s| - 1]);
      }
    }
    assert LowerBound(o, s, x) == |s|;
    assert s[..|s|] == s;
  }

  /** The result of one call of a traversal: the items shown to the visitor, and whether
      the visitor asked to go on after the last of them. */
  datatype Trace<T> = Trace(visited: seq<T>, more: bool)

  /** The items a traversal shows to its visitor when it offers the items of `s` in
      turn. A visitor is a Go closure `func(item T) bool`; its answer may depend on
      everything it saw before, so it is modelled as a function of the items already
      shown (`seen`) and the current one. The traversal stops as soon as it answers
      false. */
  function Visit<T>(iter: (seq<T>, T) -> bool, seen: seq<T>, s: seq<T>): (t: Trace<T>)
    ensures |t.visited| <= |s|
    ensures t.more ==> |t.visited| == |s| && t.visited == s
    ensures !t.more ==> |t.visited| > 0
    decreases |s|
  {
    if s == [] then Trace([], true)
    else if !iter(seen, s[0]) then Trace([s[0]], false)
    else
      var rest := Visit(iter, seen + [s[0]], s[1..]);
      Trace([s[0]] + rest.visited, rest.more)
  }

  /** A traversal shows a prefix of what it offers: all of it unless it stopped. */
  lemma {:induction false} VisitPrefix<T>(iter: (seq<T>, T) -> bool, seen: seq<T>, s: seq<T>)
    ensures Visit(iter, seen, s).visited == s[..|Visit(iter, seen, s).visited|]
    decreases |s|
  {
    if s != [] && iter(seen, s[0]) {
      VisitPrefix(iter, seen + [s[0]], s[1..]);
    }
  }

  /** The visitor answered yes to each of the first `k` items of `s`, each offered
      after the ones before it. */
  predicate AllYes<T>(iter: (seq<T>, T) -> bool, seen: seq<T>, s: seq<T>, k: nat)
    requires k <= |s|
    decreases k
  {
    k == 0 || (iter(seen, s[0]) && AllYes(iter, seen + [s[0]], s[1..], k - 1))
  }

  /** What the visitor answered along a traversal: yes to every item shown but the
      last, and no to that one exactly when the traversal stopped early. */
  lemma {:induction false} VisitAnswers<T>(iter: (seq<T>, T) -> bool, seen: seq<T>, s: seq<T>)
    ensures var t := Visit(iter, seen, s);
      AllYes(iter, seen, s, if t.more then |s| else |t.visited| - 1) &&
      (!t.more ==> !iter(seen + s[..|t.visited| - 1], s[|t.visited| - 1]))
    decreases |s|
  {
    if s != [] {
      assert seen + s[..0] == seen;
      if iter(seen, s[0]) {
        var seen1, s1 := seen + [s[0]], s[1..];
        VisitAnswers(iter, seen1, s1);
        var rest := Visit(iter, seen1, s1);
        var t := Visit(iter, seen, s);
        assert t == Trace([s[0]] + rest.visited, rest.more);
        var k1 := if rest.more then |s1| else |rest.visited| - 1;
        assert AllYes(iter, seen1, s1, k1);
        assert AllYes(iter, seen, s, k1 + 1);
        if !rest.more {
          var j := |rest.visited| - 1;
          assert s[..j + 1] == [s[0]] + s1[..j] && s[j + 1] == s1[j];
          assert seen + s[..j + 1] == seen1 + s1[..j];
        }
      }
    }
  }

  /** Offering `a` and then `b` is offering `a + b`, and a stop in `a` never reaches `b`:
      this is how a traversal of a node is pieced together from its children's. */
  lemma {:induction false} VisitAppend<T>(iter: (seq<T>, T) -> bool, seen: seq<T>, a: seq<T>, b: seq<T>)
    ensures Visit(iter, seen, a + b) ==
      var ta := Visit(iter, seen, a);
      if ta.more then
        var tb := Visit(iter, seen + a, b);
        Trace(a + tb.visited, tb.more)
      else ta
    decreases |a|
  {
    if a != [] {
      var ab := a + b;
      assert ab[0] == a[0] && ab[1..] == a[1..] + b;
      assert seen + [a[0]] + a[1..] == seen + a;
      if iter(seen, a[0]) {
        VisitAppend(iter, seen + [a[0]], a[1..], b);
        var rest := Visit(iter, seen + [a[0]], ab[1..]);
        assert Visit(iter, seen, ab) == Trace([a[0]] + rest.visited, rest.more);
        var ra := Visit(iter, seen + [a[0]], a[1..]);
        assert Visit(iter, seen, a) == Trace([a[0]] + ra.visited, ra.more);
      }
    } else {
      assert a + b == b && seen + a == seen;
      var tb := Visit(iter, seen, b);
      assert a + tb.visited == tb.visited;
    }
  }

  /** Once `a` went through, offering `a + b` goes on to offer `b`. */
  lemma VisitThen<T>(iter: (seq<T>, T) -> bool, seen: seq<T>, a: seq<T>, b: seq<T>)
    requires Visit(iter, seen, a).more
    ensures Visit(iter, seen, a + b) == Trace(a + Visit(iter, seen + a, b).visited, Visit(iter, seen + a, b).more)
  {
    VisitAppend(iter, seen, a, b);
  }

  /** A traversal stopped within `a` never offers what follows. */
  lemma VisitStopped<T>(iter: (seq<T>, T) -> bool, seen: seq<T>, a: seq<T>, b: seq<T>)
    requires !Visit(iter, seen, a).more
    ensures Visit(iter, seen, a + b) == Visit(iter, seen, a)
  {
    VisitAppend(iter, seen, a, b);
  }

  /** Concatenation is associative; stated once so that proofs regroup in one step. */
  lemma Assoc<T>(a: seq<T>, b: seq<T>, c: seq<T>)
    ensures a + (b + c) == (a + b) + c
  {
  }

  lemma EmptyLeft<T>(a: seq<T>)
    ensures [] + a == a
  {
  }

  /** A traversal of `a + b` in two steps: `t` over `a` and then, when all of `a`
      went through, `u` over `b`. */
  lemma Chain<T>(iter: (seq<T>, T) -> bool, seen: seq<T>, a: seq<T>, b: seq<T>, t: Trace<T>, u: Trace<T>)
    requires t == Visit(iter, seen, a)
    requires t.more ==> u == Visit(iter, seen + a, b)
    ensures Visit(iter, seen, a + b) == if t.more then Trace(t.visited + u.visited, u.more) else t
  {
    if t.more {
      VisitThen(iter, seen, a, b);
    } else {
      VisitStopped(iter, seen, a, b);
    }
  }

  /** The reverse of a sequence: what the reverse traversals offer. */
  function Reverse<T>(s: seq<T>): (r: seq<T>)
    ensures |r| == |s|
    ensures forall i :: 0 <= i < |s| ==> r[i] == s[|s| - 1 - i]
  {
    if s == [] then [] else Reverse(s[1..]) + [s[0]]
  }

  lemma {:induction false} ReverseAppend<T>(a: seq<T>, b: seq<T>)
    ensures Reverse(a + b) == Reverse(b) + Reverse(a)
  {
    var r, l := Reverse(a + b), Reverse(b) + Reverse(a);
    assert |r| == |l|;
    forall i | 0 <= i < |r| ensures r[i] == l[i] {
      if i < |b| {
        assert r[i] == (a + b)[|a| + |b| - 1 - i];
      } else {
        assert r[i] == (a + b)[|a| + |b| - 1 - i];
      }
    }
  }
}
