/** Searching one node: the binary search `bsearch`, and `hintsearch`, which first
    tries the position a `PathHint` remembers for this depth (btree/btree.go:33-38,
    96-193). */
module BTreeSearch {
  import opened Ordering
  import opened BTreeNodes

  newtype uint8 = x: int | 0 <= x < 256

  /** Go's conversion `uint8(x)`: the low eight bits, so the result differs from `x`
      by a multiple of 256. */
  function ToUint8(x: int): (r: uint8)
    ensures (x - r as int) % 256 == 0
    ensures 0 <= x < 256 ==> r as int == x
  {
    (x % 256) as uint8
  }

  /** Remembers, for each of the first eight depths, the index a search last ended at. */
  class PathHint {
    const used: array<bool>
    const path: array<uint8>

    ghost predicate Valid() {
      used.Length == 8 && path.Length == 8
    }

    /** The zero value: nothing remembered. */
    constructor ()
      ensures Valid() && fresh(used) && fresh(path)
      ensures forall i :: 0 <= i < 8 ==> !used[i] && path[i] == 0
    {
      used := new bool[8](_ => false);
      path := new uint8[8](_ => 0);
    }
  }

  /** What a search through `hint` may change. */
  function HintFrame(hint: PathHint?): set<object> {
    if hint == null then {} else {hint.used, hint.path}
  }

  /** bsearch: the position of the item equivalent to `key`, or the position where
      `key` would be inserted. */
  method Bsearch<T>(o: Order<T>, items: seq<T>, key: T) returns (index: int, found: bool)
    requires Ascending(o, items)
    ensures 0 <= index <= |items|
    ensures index == LowerBound(o, items, key) && found == Holds(o, items, key)
    ensures found ==> index < |items| && o.Equiv(items[index], key)
    ensures !found ==> (forall k :: 0 <= k < index ==> o.Lt(items[k], key)) &&
                       (forall k :: index <= k < |items| ==> o.Lt(key, items[k]))
  {
    var low, high := 0, |items|;
    while low < high
      invariant 0 <= low <= high <= |items|
      invariant forall k :: 0 <= k < low ==> !o.Lt(key, items[k])
      invariant forall k :: high <= k < |items| ==> o.Lt(key, items[k])
    {
      var h := (low + high) / 2;
      if !o.Lt(key, items[h]) {
        low := h + 1;
      } else {
        high := h;
      }
    }
    if low > 0 && !o.Lt(items[low - 1], key) {
      index, found := low - 1, true;
    } else {
      index, found := low, false;
    }
    Settle(o, items, key, index, found);
  }

  /** Both searches end the same way: `found` with the index of an equivalent item,
      or not `found` with the index of the first item after `key`. */
  lemma Settle<T>(o: Order<T>, items: seq<T>, key: T, index: int, found: bool)
    requires Ascending(o, items)
    requires 0 <= index <= |items|
    requires found ==> index < |items| && o.Equiv(items[index], key)
    requires !found ==> (index > 0 ==> o.Lt(items[index - 1], key)) &&
                        (index < |items| ==> o.Lt(key, items[index]))
    ensures index == LowerBound(o, items, key) && found == Holds(o, items, key)
    ensures !found ==> (forall k :: 0 <= k < index ==> o.Lt(items[k], key)) &&
                       (forall k :: index <= k < |items| ==> o.Lt(key, items[k]))
  {
    assert items == items[..index] + items[index..];
    if found {
      Below(o, items[..index], items[index..], items[index]);
      Above(o, items[..index + 1], items[index + 1..], items[index]);
      assert items == items[..index + 1] + items[index + 1..];
      LowerBoundUnique(o, items, key, index);
    } else {
      Below(o, items[..index], items[index..], key);
      Above(o, items[..index], items[index..], key);
      LowerBoundUnique(o, items, key, index);
    }
  }

  /** hintsearch: the same answer as `Bsearch` whatever the hint holds; afterwards the
      hint remembers where this search ended at `depth`, and forgets the deeper
      entries when that position changed. */
  method Hintsearch<T>(o: Order<T>, n: Node<T>, key: T, hint: PathHint, depth: nat)
    returns (index: int, found: bool)
    requires hint.Valid() && Ascending(o, n.items)
    requires depth < 8 && hint.used[depth] ==> |n.items| > 0
    modifies hint.used, hint.path
    ensures index == LowerBound(o, n.items, key) && found == Holds(o, n.items, key)
    ensures depth < 8 ==>
      hint.used[depth] && hint.path[depth] == ToUint8(if n.Leaf? && found then index + 1 else index)
    ensures depth < 8 && hint.path[depth] != old(hint.path[depth]) ==>
      forall i :: depth < i < 8 ==> !hint.used[i]
    ensures depth < 8 && hint.path[depth] == old(hint.path[depth]) ==>
      forall i :: depth < i < 8 ==> hint.used[i] == old(hint.used[i])
    ensures forall i :: 0 <= i < 8 && i != depth ==> hint.path[i] == old(hint.path[i])
    ensures forall i :: 0 <= i < 8 && i < depth ==> hint.used[i] == old(hint.used[i])
  {
    var start := if depth < 8 && hint.used[depth] then Some(hint.path[depth] as int) else None;
    index, found := HintProbe(o, n.items, key, start);
    if depth < 8 {
      Remember(hint, depth, if n.Leaf? && found then ToUint8(index + 1) else ToUint8(index));
    }
  }

  /** The search part of hintsearch. With a remembered position `start`, it first
      checks whether the key belongs exactly there, and otherwise narrows the binary
      search to the side of `start` where the key lies. */
  method HintProbe<T>(o: Order<T>, items: seq<T>, key: T, start: Option<int>)
    returns (index: int, found: bool)
    requires Ascending(o, items)
    requires start.Some? ==> 0 <= start.value && |items| > 0
    ensures index == LowerBound(o, items, key) && found == Holds(o, items, key)
  {
    var low, high := 0, |items| - 1;
    var matched := false;
    index, found := 0, false;
    if start.Some? {
      index := start.value;
      if index >= |items| {
        if o.Lt(items[|items| - 1], key) {
          index := |items|;
          matched := true;
        } else {
          index := |items| - 1;
        }
      }
      if !matched {
        if o.Lt(key, items[index]) {
          if index == 0 || o.Lt(items[index - 1], key) {
            matched := true;
          } else {
            high := index - 1;
            SortedAbove(o, items, index, key);
          }
        } else if o.Lt(items[index], key) {
          low := index + 1;
          SortedBelow(o, items, index, key);
        } else {
          found := true;
          matched := true;
        }
      }
    }
    if !matched {
      while low <= high
        invariant 0 <= low <= high + 1 <= |items|
        invariant forall k :: 0 <= k < low ==> !o.Lt(key, items[k])
        invariant forall k :: high < k < |items| ==> o.Lt(key, items[k])
      {
        var mid := low + ((high + 1) - low) / 2;
        if !o.Lt(key, items[mid]) {
          low := mid + 1;
        } else {
          high := mid - 1;
        }
      }
      if low > 0 && !o.Lt(items[low - 1], key) {
        index, found := low - 1, true;
      } else {
        index, found := low, false;
      }
    }
    Settle(o, items, key, index, found);
  }

  lemma SortedBelow<T>(o: Order<T>, items: seq<T>, i: int, key: T)
    requires Ascending(o, items) && 0 <= i < |items| && o.Lt(items[i], key)
    ensures forall k :: 0 <= k <= i ==> o.Lt(items[k], key)
  {
  }

  lemma SortedAbove<T>(o: Order<T>, items: seq<T>, i: int, key: T)
    requires Ascending(o, items) && 0 <= i < |items| && o.Lt(key, items[i])
    ensures forall k :: i <= k < |items| ==> o.Lt(key, items[k])
  {
  }

  /** The `path_match` step of hintsearch: mark the depth used, store the position,
      and forget every deeper entry if the position changed. */
  method Remember(hint: PathHint, depth: nat, pathIndex: uint8)
    requires hint.Valid() && depth < 8
    modifies hint.used, hint.path
    ensures hint.used[depth] && hint.path[depth] == pathIndex
    ensures pathIndex != old(hint.path[depth]) ==> forall i :: depth < i < 8 ==> !hint.used[i]
    ensures pathIndex == old(hint.path[depth]) ==>
      forall i :: depth < i < 8 ==> hint.used[i] == old(hint.used[i])
    ensures forall i :: 0 <= i < 8 && i != depth ==> hint.path[i] == old(hint.path[i])
    ensures forall i :: 0 <= i < depth ==> hint.used[i] == old(hint.used[i])
  {
    hint.used[depth] := true;
    if pathIndex != hint.path[depth] {
      hint.path[depth] := pathIndex;
      var i := depth + 1;
      while i < 8
        invariant depth + 1 <= i <= 8
        invariant hint.used[depth] && hint.path[depth] == pathIndex
        invariant forall j :: depth < j < i ==> !hint.used[j]
        invariant forall j :: 0 <= j < depth ==> hint.used[j] == old(hint.used[j])
        invariant forall j :: 0 <= j < 8 && j != depth ==> hint.path[j] == old(hint.path[j])
      {
        hint.used[i] := false;
        i := i + 1;
      }
    }
  }

  /** find: `Hintsearch` when a hint is given, `Bsearch` otherwise. */
  method Find<T>(o: Order<T>, n: Node<T>, key: T, hint: PathHint?, depth: nat)
    returns (index: int, found: bool)
    requires hint != null ==> hint.Valid()
    requires Ascending(o, n.items) && |n.items| > 0
    modifies HintFrame(hint)
    ensures index == LowerBound(o, n.items, key) && found == Holds(o, n.items, key)
    ensures found ==> index < |n.items| && o.Equiv(n.items[index], key)
    ensures !found ==> (forall k :: 0 <= k < index ==> o.Lt(n.items[k], key)) &&
                       (forall k :: index <= k < |n.items| ==> o.Lt(key, n.items[k]))
    ensures hint != null && depth < 8 ==>
      hint.used[depth] && hint.path[depth] == ToUint8(if n.Leaf? && found then index + 1 else index)
    ensures hint != null && depth < 8 && hint.path[depth] != old(hint.path[depth]) ==>
      forall i :: depth < i < 8 ==> !hint.used[i]
    ensures hint != null && depth < 8 && hint.path[depth] == old(hint.path[depth]) ==>
      forall i :: depth < i < 8 ==> hint.used[i] == old(hint.used[i])
    ensures hint != null ==> forall i :: 0 <= i < 8 && i != depth ==> hint.path[i] == old(hint.path[i])
    ensures hint != null ==> forall i :: 0 <= i < 8 && i < depth ==> hint.used[i] == old(hint.used[i])
  {
    if hint == null {
      index, found := Bsearch(o, n.items, key);
    } else {
      index, found := Hintsearch(o, n, key, hint, depth);
      Settle(o, n.items, key, index, found);
    }
  }
}
