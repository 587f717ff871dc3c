# Ordered containers of go-container, modelled in Dafny

This project models the two ordered containers of the Go library
`go-container`.

- **The B-tree** (`btree/btree.go`). Nodes hold between `min` and `max` items
  in order, and a branch holds one child more than it has items. Every node
  caches the number of items below it, which the positional operations use.
  Every node is tagged with the isoid of the tree that owns it. `IsoCopy` gives
  both trees fresh isoids, and a tree that is about to change a node owned by
  another isoid copies the node first (copy-on-write). A `PathHint` remembers,
  depth by depth, where the last search went, and the next search tries there
  first.
- **The left-leaning red-black tree** (`rbtree/rbtree.go`). This is Sedgewick's
  2-3 variant. It has upsert and duplicate-keeping insert, deletion of the
  minimum, the maximum or a given key, and range traversals that stop when the
  visitor returns false.

The model has these parts:

- `ordering.dfy` holds what both trees share. `Order` is the comparator `less`.
  The sorted-sequence view of the contents (`LowerBound`, `UpperBound`,
  `Lookup`, `Upserted`, `Removed`) is the specification the operations are
  proved against. `Visit` is the visitor protocol.
- `btree_*.dfy` model the B-tree:
  - Nodes are a datatype, `Leaf | Branch`, with their isoid and cached count.
  - The tree itself is a class whose root the operations replace.
  - The descents that update counts in place and then revert them
    (`DeleteMin`, `DeleteMax`, `DeleteAt`, `Load`) are methods over a path of
    child indices.
  - `PathHint` is a class over two arrays, as the Go struct is.
- `rb_*.dfy` model the LLRB:
  - Nodes are a value datatype, and the node operations are functions that
    return the rebuilt subtree, as Go's recursive `h = f(h)` style does.
  - `LLRB` is a class holding the root and the count.
  - Its lookups descend in loops, as the source does.
  - Its traversals are functions producing the trace of what the visitor saw.

Every tree operation is proved against the sorted contents. An upsert leaves
`Upserted(contents, item)` and returns what `Lookup` finds. A delete leaves
`Removed(contents, key)`. Positional operations act on the item at that index,
and traversals visit exactly the selected items in order. The structural
invariants are proved preserved:

- B-tree: node fill bounds, equal leaf depth, cached counts, and every tag in
  the root at most the tree's isoid. Every change leaves a root built from the
  old one under the copy-on-write rule: each of its nodes is an unchanged
  subtree of the old root or carries the tree's own isoid. Since `IsoCopy`
  gives both trees isoids above every tag in the shared root, neither tree
  writes a node the other can see.
- LLRB: equal black height, no right-leaning red link, no two red links in a
  row, black root.

## Model

| member | source | states |
|---|---|---|
| Ordering.Lookup | btree/btree.go:96-110 | The item equivalent to the key, if any; present exactly when some item is equivalent to it. |
| Ordering.Upserted | btree/btree.go:304-351 | Contents after an upsert: still ascending and holding the item. The size is unchanged when an equivalent item existed, otherwise one more. Every other item is kept. |
| Ordering.Removed | btree/btree.go:473-520 | Contents after a delete: still ascending and one shorter when the key was present. It holds exactly the old items not equivalent to the key. |
| Ordering.Visit | rbtree/rbtree.go:483-494 | A traversal shows at most what it offers, and shows all of it when the visitor never said stop. |
| Ordering.VisitAnswers | btree/btree.go:371-391 | Along a traversal the visitor said yes to every item shown but the last, and said no to the last exactly when the traversal stopped early. |
| Ordering.VisitAppend | btree/btree.go:382-390 | Offering `a` and then `b` is offering `a + b`, and a stop inside `a` never reaches `b`. |
| Ordering.RemovedIndex | btree/btree.go:954-1011 | Deleting the key of the item at position k of an ascending sequence removes exactly that item. |
| Ordering.UpsertedLast | btree/btree.go:760-767 | An item sorting after all the contents is new and is appended. |
| BTreeNodes.DegreeToMinMax | btree/btree.go:1169-1178 | A degree of 0 or less means 32, and a degree of 1 means 2. Then max = 2·degree − 1, which is odd and at least 3, and min = max/2. |
| BTreeNodes.Copy | btree/btree.go:273-294 | The copy carries the tree's isoid, the same count, items and children, and the same contents and well-formedness. |
| BTreeNodes.IsoLoad | btree/btree.go:297-302 | With `mut`, the node comes back owned by the tree. Otherwise, or when it already is owned, it comes back unchanged. Contents are kept either way. |
| BTreeNodes.LoadOwned | btree/btree.go:297-302 | A node loaded for change is owned by the tree: it carries the tree's isoid and its children are unchanged subtrees of the old node. |
| BTreeNodes.OwnedTrans | btree/btree.go:297-302 | Built from a node that was itself built from the root under the ownership rule means built from the root. |
| BTreeNodes.TagsOwned | btree/btree.go:297-302 | A node built from a root whose tags are at most the tree's isoid has all its tags at most the tree's isoid. |
| BTreeSearch.ToUint8 | btree/btree.go:961-1010 | Go's `uint8(x)`: the value modulo 256, and `x` itself below 256. |
| BTreeSearch.PathHint.constructor | btree/btree.go:35-39 | The zero hint: no depth is marked as used. |
| BTreeSearch.Bsearch | btree/btree.go:96-110 | The lower bound of the key, and `found` exactly when the item there is equivalent to the key. Everything before sorts before the key; when not found, everything after sorts after it. |
| BTreeSearch.Hintsearch | btree/btree.go:120-194 | The same answer as `Bsearch`, whatever the hint holds. The hint then records the position at this depth, one past a match in a leaf. When the recorded position changed, the deeper entries are forgotten. |
| BTreeSearch.HintProbe | btree/btree.go:124-174 | Probing at the remembered position and then narrowing to one side finds the lower bound and whether the key is held. |
| BTreeSearch.Remember | btree/btree.go:176-191 | Marks the depth used and stores the position. Every deeper entry is forgotten when the position changed, and every other entry is kept. |
| BTreeSearch.Find | btree/btree.go:112-118 | `Hintsearch` with a hint, `Bsearch` without one. Either way it gives the same lower bound and found flag. With a hint it also records the index at this depth (one past a hit in a leaf), and clears the deeper entries exactly when that index changed. |
| BTreeInsert.UpdateCount | btree/btree.go:263-270 | Only the count changes. It becomes the items plus the children's counts, which is the true size when the children's counts are right. |
| BTreeInsert.NodeSplit | btree/btree.go:240-261 | The median is `items[max/2]`, and the two halves of `min` items each rebuild the node around it. The left half keeps the node's isoid and the right half gets the tree's. Contents and fill bounds are kept. |
| BTreeInsert.NodeSet | btree/btree.go:304-351 | `split` is reported exactly when the path to the item's leaf is full all the way up. In that case nothing changes. Otherwise the subtree holds `Upserted(contents, item)` and the previous item is what `Lookup` finds. Well-formedness is kept. |
| BTreeInsert.NodeSetBelow | btree/btree.go:333-350 | The recursive branch of nodeSet: the same contract, for a key not in the branch. |
| BTreeInsert.SplitChild | btree/btree.go:334-344 | A full child is split and its median taken into the parent, which has room. Contents are kept, the parent has one more item, and the retry does not split again. |
| BTreeInsert.UpsertFound | btree/btree.go:318-322 | Overwriting the equivalent item in place is the upsert, and it hands back the old item. |
| BTreeInsert.UpsertLeaf | btree/btree.go:323-331 | Inserting at the lower bound in a leaf with room is the upsert of a new item. |
| BTreeInsert.RetryFits | btree/btree.go:338-345 | After a split child is taken in, the retried search leads to a half that is not full. |
| BTreeDelete.Delete | btree/btree.go:473-520 | With `max`, removes and returns the last item. Otherwise it leaves `Removed(contents, key)` and returns what `Lookup` finds. Nothing changes when nothing is returned. Only the top node may end up one item short. |
| BTreeDelete.DeleteLast | btree/btree.go:499-502 | The maximum of a branch is deleted from its last child. |
| BTreeDelete.DeleteSeparator | btree/btree.go:503-508 | An item found in a branch is replaced by the maximum of the child before it. This removes exactly the key. |
| BTreeDelete.DeleteBelow | btree/btree.go:509-519 | A key not found in a branch is deleted from the child the search leads to. |
| BTreeDelete.Predecessor | btree/btree.go:503-508 | Replacing the separator by its predecessor, after deleting that predecessor below, is `Removed` of the key. |
| BTreeDelete.Rebalanced | btree/btree.go:515-518 | A child left below `min` is rebalanced. Contents are kept and only the top may be one item short. |
| BTreeDelete.NodeRebalance | btree/btree.go:525-603 | Repairs an underfull child together with its right neighbour, or its left one for the last child. The count, the contents and the leaf depth are kept, and every child is full enough again. |
| BTreeDelete.Merge | btree/btree.go:534-556 | When the two siblings fit in one node they become one, around the separator, which leaves the parent. Contents are kept. |
| BTreeDelete.RotateRight | btree/btree.go:557-581 | The left sibling is larger: its last item goes up and the separator goes down to the right, together with a child. Contents are kept. |
| BTreeDelete.RotateLeft | btree/btree.go:582-602 | The right sibling is at least as large: its first item goes up and the separator goes down to the left, together with a child. Contents are kept. |
| BTreeDelete.MergeOk | btree/btree.go:534-556 | The merged parent is well shaped, has the same contents, and holds one item fewer. |
| BTreeDelete.RotateOk | btree/btree.go:557-602 | The rotated parent is well shaped, has the same contents, and holds as many items. |
| BTreePaths.Frame | btree/btree.go:927-950 | A tree's contents are those before the subtree at a path, then the subtree's, then those after it. |
| BTreePaths.AlongWalk | btree/btree.go:966-997 | After a pass that changes counts along a path, the contents are the node at its end between what came before and after it. |
| BTreePaths.AlongOwned | btree/btree.go:966-997 | The count-adjusting descent loads each node on the path for change, so its result is built from the old root. |
| BTreePaths.LeafEdited | btree/btree.go:968-982 | The fast paths: a pass that ends by cutting or appending a leaf item keeps the tree well formed when the contents stay ascending. |
| BTreePaths.Reverted | btree/btree.go:998-1010 | Reverting the counts of a pass restores the tree's contents, counts and well-formedness. Only the node copies remain. |
| BTreePaths.RankScan | btree/btree.go:939-947 | Skipping whole children by their counts either hits a separator at the index or leaves an index that falls inside the child it stops at. |
| BTreePaths.Locate | btree/btree.go:931-949 | The rank descent ends at the item at `index`: on a separator, or inside a leaf at the given offset after what precedes it. |
| BTreePaths.RecordAsWritten | btree/btree.go:961-995 | DeleteAt's recorded path: each child index and the final position, each as `uint8(...)`. |
| BTreePaths.RevertAsWritten | btree/btree.go:998-1010 | The revert loop as written adds one to the count of each node it meets along the recorded path. |
| BTreePaths.RevertAsWrittenMiscounts | btree/btree.go:990-1008 | On a well-formed two-level tree with room for more than 256 children (a degree above 128), DeleteAt's fallback at a child `k >= 256` holding `min` items makes the revert as written raise the count of child `k % 256`, while child `k` stays one short. |
| BTreeScans.ScanFrom | btree/btree.go:374-380 | A leaf's items from a position on, in order, until the visitor says stop. |
| BTreeScans.ReverseUpTo | btree/btree.go:679-685 | A leaf's items before a position, backwards, until the visitor says stop. |
| BTreeScans.AscendChildren | btree/btree.go:382-390 | A branch's items from a position on, each followed by its right child's contents, until stop. |
| BTreeScans.ReverseChildren | btree/btree.go:687-698 | A branch's items up to a position, backwards, each followed by its left child's contents, until stop. |
| BTreeScans.NodeScan | btree/btree.go:371-391 | The trace equals `Visit` over the subtree's contents in order. |
| BTreeScans.NodeReverse | btree/btree.go:676-699 | The trace equals `Visit` over the subtree's contents reversed. |
| BTreeScans.NodeAscend | btree/btree.go:628-656 | The trace equals `Visit` over the contents from the pivot's lower bound on. |
| BTreeScans.NodeDescend | btree/btree.go:722-747 | The trace equals `Visit` over the contents up to the pivot's upper bound, reversed. |
| BTreeScans.NodeItems | btree/btree.go:1134-1144 | The given items followed by the subtree's contents in order. |
| BTrees.IsoIds.Next | btree/btree.go:1157-1159 | A fresh id, one more than every id handed out before. |
| BTrees.BTree.constructor | btree/btree.go:54-81 | An empty tree with a fresh isoid, and bounds given by `degreeToMinMax` of the degree. |
| BTrees.BTree.Clone | btree/btree.go:1088-1091 | A second tree over the same root, with the same contents and bounds and a given isoid later than the source's. Every tag in the shared root stays below the new isoid. |
| BTrees.BTree.SetHint | btree/btree.go:196-234 | Contents become `Upserted` and the returned item is what `Lookup` finds. The count grows only for a new item. A full root splits and the height grows by one exactly when the path was full. The new root is built from the old one: each of its nodes is an unchanged subtree of the old root or carries the tree's isoid. |
| BTrees.BTree.TrySet | btree/btree.go:216-233 | The root's set either reports a full path, leaving the contents and a full root, or upserts: `Upserted` contents and the `Lookup` result. The count grows only for a new item. The new root is built from the old one: each of its nodes is an unchanged subtree of the old root or carries the tree's isoid. |
| BTrees.RootSet | btree/btree.go:216-217 | The same on the root value: a well-formed root, its tags kept below the tree's next isoid, built from the old root. |
| BTrees.BTree.SplitRoot | btree/btree.go:217-225 | The full root is split under a new root holding the median. Contents are kept and the height grows by one. The new root is built from the old one: each of its nodes is an unchanged subtree of the old root or carries the tree's isoid. |
| BTrees.SplitTop | btree/btree.go:217-225 | The new root over the two halves is well formed one level higher, holds one item, keeps the contents and the count, and is built from the old root. |
| BTrees.BTree.Upsert | btree/btree.go:236-238 | `SetHint` without a hint: `Upserted` contents, the `Lookup` result returned, and the count grown only for a new item. The new root is built from the old one: each of its nodes is an unchanged subtree of the old root or carries the tree's isoid. |
| BTrees.BTree.GetHint | btree/btree.go:403-432 | The item `Lookup` finds, which is a member of the contents equivalent to the key. |
| BTrees.BTree.Get | btree/btree.go:394-396 | The item `Lookup` finds. |
| BTrees.BTree.Len | btree/btree.go:435-437 | The number of items. |
| BTrees.BTree.DeleteHint | btree/btree.go:448-471 | Contents become `Removed` and the returned item is what `Lookup` finds. The count drops only when something was deleted, and an emptied tree has no root. The new root is built from the old one: each of its nodes is an unchanged subtree of the old root or carries the tree's isoid. |
| BTrees.RootDelete | btree/btree.go:456-470 | The same on the root value: `Removed` contents, the `Lookup` result, a root that is none exactly when nothing is left, and one built from the old root. |
| BTrees.BTree.Delete | btree/btree.go:441-443 | `DeleteHint` without a hint: `Removed` contents and the `Lookup` result. The new root is built from the old one: each of its nodes is an unchanged subtree of the old root or carries the tree's isoid. |
| BTrees.BTree.Min | btree/btree.go:786-808 | The first item, or none when the tree is empty. |
| BTrees.BTree.Max | btree/btree.go:812-834 | The last item, or none when the tree is empty. |
| BTrees.BTree.Scan | btree/btree.go:353-369 | The items shown are `Visit` over the contents in order. |
| BTrees.BTree.ReverseScan | btree/btree.go:658-674 | The items shown are `Visit` over the contents in reverse. |
| BTrees.BTree.Ascend | btree/btree.go:608-626 | The items shown are `Visit` over the items not below the pivot, in order. |
| BTrees.BTree.Descend | btree/btree.go:704-720 | The items shown are `Visit` over the items not above the pivot, in reverse. |
| BTrees.BTree.Values | btree/btree.go:1115-1132 | All items in order. |
| BTrees.BTree.DeleteMin | btree/btree.go:838-875 | On an empty tree, nothing happens. Otherwise it returns the first item and the contents lose it, on the fast path or the fallback alike. The new root is built from the old one: each of its nodes is an unchanged subtree of the old root or carries the tree's isoid. |
| BTrees.BTree.DeleteMax | btree/btree.go:879-915 | On an empty tree, nothing happens. Otherwise it returns the last item and the contents lose it. The new root is built from the old one: each of its nodes is an unchanged subtree of the old root or carries the tree's isoid. |
| BTrees.BTree.DeleteInLeaf | btree/btree.go:848-874 | Once the descent reaches the leaf, the item at its position in order is returned and cut from the contents, on the fast path or the fallback. The new root is built from the old one: each of its nodes is an unchanged subtree of the old root or carries the tree's isoid. |
| BTrees.BTree.RevertDelete | btree/btree.go:865-874 | The fallback: after the counts are put back, deleting by the key of item `k` returns item `k` and removes exactly it. The new root is built from the old one: each of its nodes is an unchanged subtree of the old root or carries the tree's isoid. |
| BTrees.BTree.Load | btree/btree.go:750-782 | The same result as an upsert, whether the append fast path is taken or not. The new root is built from the old one: each of its nodes is an unchanged subtree of the old root or carries the tree's isoid. |
| BTrees.BTree.CutLeaf | btree/btree.go:848-861 | The fast path of the deletions: the item at its position in order is cut from the contents. The new root is built from the old one: each of its nodes is an unchanged subtree of the old root or carries the tree's isoid. |
| BTrees.BTree.AppendLeaf | btree/btree.go:759-766 | The fast path of Load: the item is appended, which is `Upserted` of a new item. The new root is built from the old one: each of its nodes is an unchanged subtree of the old root or carries the tree's isoid. |
| BTrees.RootAppend | btree/btree.go:759-766 | The same on the root value: a well-formed root one count larger, whose contents are the old ones followed by the item, built from the old root. |
| BTrees.BTree.Revert | btree/btree.go:865-873 | The fallback's count revert leaves the contents as they were. The new root is built from the old one: each of its nodes is an unchanged subtree of the old root or carries the tree's isoid. |
| BTrees.BTree.GetAt | btree/btree.go:919-950 | The item at `index` in order, or none when the index is out of range. |
| BTrees.BTree.DeleteAt | btree/btree.go:954-1012 | Out of range, nothing happens. Otherwise it returns the item at `index` and the contents lose exactly it. The fallback reverts along the true child indices (second row of "Findings"); for a degree above 128 the source's cached counts go wrong there. The new root is built from the old one: each of its nodes is an unchanged subtree of the old root or carries the tree's isoid. |
| BTrees.BTree.Height | btree/btree.go:1016-1032 | 0 for an empty tree, otherwise the number of levels. |
| BTrees.BTree.IsoCopy | btree/btree.go:1083-1093 | Both trees hold the same contents over the same root and get two new isoids, the copy's being the later one. Every tag in the shared root is below both, so neither tree owns a shared node. |
| BTrees.BTree.Clear | btree/btree.go:1147-1153 | The tree is empty. |
| BTrees.CopiesAreIsolated | btree/btree.go:1076-1093 | After a copy, an upsert into the copy and a delete from the original each change only their own tree. Every tag in the shared root is below both new isoids, and each final root holds only unchanged nodes of the shared root and nodes carrying its own tree's isoid, so no shared node is written. |
| RedBlackNodes.Blacken | rbtree/rbtree.go:102-109 | Colouring the root black keeps the items and the black balance, and makes a tree valid below its root valid outright. |
| RedBlackNodes.RotateLeft | rbtree/rbtree.go:321-331 | Needs a red right link, since a black one panics. Keeps the in-order items and the black height. The new top takes the old top's colour and its left link is red. |
| RedBlackNodes.RotateRight | rbtree/rbtree.go:333-343 | The mirror image of `RotateLeft`. |
| RedBlackNodes.Flip | rbtree/rbtree.go:346-350 | All three colours are inverted. Items and subtrees are kept. |
| RedBlackNodes.MoveRedLeft | rbtree/rbtree.go:353-361 | Keeps the items. The left part never shrinks, and it grows whenever the top item changes. |
| RedBlackNodes.MoveRedRight | rbtree/rbtree.go:364-371 | Keeps the items. Without a red left-left link nothing moves; with one, the top item is rotated up from the left and the old top goes right. |
| RedBlackNodes.FixUp | rbtree/rbtree.go:373-387 | Keeps the items. |
| RedBlackNodes.WalkUpRot23 | rbtree/rbtree.go:160-174 | Keeps the items. |
| RedBlackNodes.WalkUpRepairs | rbtree/rbtree.go:160-174 | After an insertion below, the repair restores equal black height and a 2-3 shape, outright when the node is black. |
| RedBlackInsert.InsertNoReplace | rbtree/rbtree.go:140-154 | One item more. |
| RedBlackInsert.InsertNoReplaceItems | rbtree/rbtree.go:140-154 | The item goes in at its upper bound, after every equivalent item, so duplicates are kept. |
| RedBlackInsert.InsertNoReplaceShape | rbtree/rbtree.go:140-154 | Insertion keeps the black height and the 2-3 shape below the root. |
| RedBlackInsert.ReplaceOrInsert | rbtree/rbtree.go:111-130 | The size is unchanged when an item was replaced, otherwise one more. The replaced item was in the tree and is equivalent to the new one. |
| RedBlackInsert.ReplaceOrInsertItems | rbtree/rbtree.go:111-130 | Either one equivalent item is overwritten in place and returned, or none existed and the item goes in at its upper bound. |
| RedBlackInsert.ReplaceOrInsertUpserts | rbtree/rbtree.go:111-130 | Without duplicates, the contents become `Upserted` and the returned item is what `Lookup` finds. |
| RedBlackInsert.ReplaceOrInsertShape | rbtree/rbtree.go:111-130 | Replacing or inserting keeps the black height and the 2-3 shape below the root. |
| RedBlackDelete.DeleteMin | rbtree/rbtree.go:212-227 | Something is deleted exactly when the tree is non-empty. It is the first item, and the rest remain in order. |
| RedBlackDelete.DeleteMax | rbtree/rbtree.go:242-258 | Something is deleted exactly when the tree is non-empty. The items are the rest followed by the deleted one, which is the last item. |
| RedBlackDelete.Delete | rbtree/rbtree.go:273-308 | Corrected delete: one item fewer exactly when an item is reported, and the item reported does not sort before the key. |
| RedBlackDelete.DeleteItems | rbtree/rbtree.go:273-308 | Either exactly one item equivalent to the key is removed and reported, with the others kept in order, or none existed and nothing changes. |
| RedBlackDelete.DeleteRemoves | rbtree/rbtree.go:262-308 | Without duplicates, the contents become `Removed` and the returned item is what `Lookup` finds. |
| RedBlackDelete.DeleteAsWritten | rbtree/rbtree.go:273-308 | Delete as the source writes it: any item reported does not sort before the key. |
| RedBlackDelete.DeleteAsWrittenLosesItem | rbtree/rbtree.go:294-301 | On the tree built by inserting 2, 1, 1, 0, deleting 1 as written reports one item but leaves only [0, 1]. |
| RedBlackDelete.DeleteKeepsOthers | rbtree/rbtree.go:294-301 | The corrected delete of 1 on the same tree leaves [0, 1, 2]. |
| RedBlackDelete.SampleBuilt | rbtree/rbtree.go:133-153 | Inserting 2, 1, 1 and 0 in turn into an empty tree, with the root blackened after each insertion, builds exactly the tree the two lemmas above use. |
| RedBlackDelete.DeleteAgrees | rbtree/rbtree.go:273-308 | On strictly ascending contents, that is without equivalent duplicates, the corrected delete and the delete as written give the same tree and the same reported item. |
| RedBlackDelete.DeleteMinShape | rbtree/rbtree.go:212-227 | On a subtree that can spare an item, deleteMin gives back a valid subtree of the same black height, black when the subtree was. |
| RedBlackDelete.DeleteMaxShape | rbtree/rbtree.go:242-258 | The same for deleteMax, also on a right-leaning subtree. |
| RedBlackDelete.DeleteShape | rbtree/rbtree.go:273-308 | The same for delete. |
| RedBlackDelete.DeleteMinRoot | rbtree/rbtree.go:200-209 | deleteMin at the root, followed by blackening the root, leaves a valid tree. |
| RedBlackDelete.DeleteMaxRoot | rbtree/rbtree.go:231-240 | deleteMax at the root, followed by blackening the root, leaves a valid tree. |
| RedBlackDelete.DeleteRoot | rbtree/rbtree.go:262-271 | delete at the root, followed by blackening the root, leaves a valid tree. |
| RedBlackScans.Select | rbtree/rbtree.go:393-411 | The items of the sequence a filter accepts: only those, and all of them. |
| RedBlackScans.AscendVisits | rbtree/rbtree.go:483-494 | ascend offers the in-order items and stops at the first no. |
| RedBlackScans.DescendVisits | rbtree/rbtree.go:502-513 | descend offers the items in reverse order and stops at the first no. |
| RedBlackScans.AscendRangeVisits | rbtree/rbtree.go:393-411 | On ordered items, exactly those with inf ≤ x < sup are offered, in order, until stop. |
| RedBlackScans.AscendGreaterOrEqualVisits | rbtree/rbtree.go:419-432 | Exactly the items not below the pivot are offered, in order, until stop. |
| RedBlackScans.AscendLessThanVisits | rbtree/rbtree.go:440-454 | Exactly the items below the pivot are offered, in order, until stop. |
| RedBlackScans.DescendLessOrEqualVisits | rbtree/rbtree.go:462-475 | Exactly the items not above the pivot are offered, in reverse order, until stop. |
| RedBlackScans.CollectAll | rbtree/rbtree.go:516-523 | A visitor that always says yes is offered everything. |
| RedBlackTrees.LLRB.constructor | rbtree/rbtree.go:33-37 | An empty valid tree over the given ordering. |
| RedBlackTrees.LLRB.Len | rbtree/rbtree.go:52 | The number of items. |
| RedBlackTrees.LLRB.Get | rbtree/rbtree.go:61-74 | Something is found exactly when some item is equivalent to the key. It is such an item, and it is the `Lookup` result when there are no duplicates. |
| RedBlackTrees.LLRB.Has | rbtree/rbtree.go:55-58 | True exactly when some item is equivalent to the key. |
| RedBlackTrees.LLRB.Min | rbtree/rbtree.go:77-86 | The first item, which nothing sorts below. None when the tree is empty. |
| RedBlackTrees.LLRB.Max | rbtree/rbtree.go:89-98 | The last item, which nothing sorts above. None when the tree is empty. |
| RedBlackTrees.LLRB.Upsert | rbtree/rbtree.go:102-109 | Overwrites one equivalent item and returns it, with the count unchanged. Otherwise it inserts at the upper bound and the count grows by one. The tree stays valid with a black root. |
| RedBlackTrees.LLRB.Insert | rbtree/rbtree.go:134-138 | Inserts at the upper bound, keeping duplicates. The count grows by one and the tree stays valid. |
| RedBlackTrees.LLRB.DeleteMin | rbtree/rbtree.go:200-209 | On an empty tree, nothing. Otherwise it returns the first item and the contents lose it. The count drops and the tree stays valid. |
| RedBlackTrees.LLRB.DeleteMax | rbtree/rbtree.go:231-240 | On an empty tree, nothing. Otherwise it returns the last item and the contents lose it. The count drops and the tree stays valid. |
| RedBlackTrees.LLRB.Delete | rbtree/rbtree.go:262-271 | Runs the corrected delete of rbtree/rbtree.go:294-301 (first row of "Findings"), not the code as written: exactly one equivalent item is removed and returned, with the count down by one; an absent key changes nothing. Without duplicates the contents become `Removed`, and the result is the source's own (`DeleteAgrees`). |
| RedBlackTrees.LLRB.Scan | rbtree/rbtree.go:479-481 | The items shown are `Visit` over the contents in order. |
| RedBlackTrees.LLRB.ReverseScan | rbtree/rbtree.go:498-500 | The items shown are `Visit` over the contents in reverse. |
| RedBlackTrees.LLRB.AscendRange | rbtree/rbtree.go:389-391 | The items shown are `Visit` over the items in [greaterOrEqual, lessThan), in order. |
| RedBlackTrees.LLRB.AscendGreaterOrEqual | rbtree/rbtree.go:415-417 | The items shown are `Visit` over the items not below the pivot. |
| RedBlackTrees.LLRB.AscendLessThan | rbtree/rbtree.go:436-438 | The items shown are `Visit` over the items below the pivot. |
| RedBlackTrees.LLRB.DescendLessOrEqual | rbtree/rbtree.go:458-460 | The items shown are `Visit` over the items not above the pivot, in reverse. |
| RedBlackTrees.LLRB.Values | rbtree/rbtree.go:516-523 | All items in order. |
| RedBlackTrees.Search | rbtree/rbtree.go:64-72 | One step of the lookup: the key is absent from the tree exactly when it is absent from the side the comparison leads to. |

## Left out

- RedBlackTrees.LLRB.Delete: calls the corrected `RedBlackDelete.Delete`, not `RedBlackDelete.DeleteAsWritten`. On a tree holding equivalent duplicates, the source's `Delete` can drop a second item (first row of "Findings"), and the model does not reproduce that. On trees without equivalent duplicates the two agree, as `RedBlackDelete.DeleteAgrees` proves.
- Locks (`sync.RWMutex`, the `lock`/`unlock` pair and `NoLocks`) are left out: the model is sequential.
- The package-wide atomic isoid counter becomes the explicit `IsoIds` object passed to the constructor and to `IsoCopy`. Its `uint64` wrap-around is not modelled.
- The `*Mut` variants (`GetMut`, `ScanMut`, `MinMut`, …) and the `Copy` alias are left out. `IsoLoad` models the copy-on-load that distinguishes them.
- `Walk`/`nodeWalk` on the B-tree is left out, as are `SetRoot`, `Root`, `walkDownRot234` and `walkUpRot234` on the LLRB: none is on the modelled path.
- `NewBTree`, `NewBTreeFunc` and `New` for `cmp.Ordered` types are left out: they only fix the comparator and the degree, which the constructors take as parameters.
- Slice capacity and the zeroing of vacated slots are left out: the nodes hold sequences.
- B-tree nodes and LLRB nodes are values. Aliasing between trees shows only through isoids, and relinking nodes in place becomes rebuilding the subtree. The isolation of copies is therefore stated through the copy-on-write rule on tags (`Owned`, `TagsBelow`), not through pointer identity.
- Panics on a misused tree, such as rotating across a black link or a comparator that is not a strict weak order, become preconditions: the `Order` type and the `Valid`/`Deletable` representation invariants.
- A visitor (`func(item T) bool`) is modelled as a function of the items already shown and the current one. Side effects beyond that are not modelled.
- Counts and indices are unbounded integers: overflow of Go's `int` is not modelled.
- RedBlackTrees.LLRB.Get: with duplicates, any equivalent item may be returned. The source returns the first one met on the search path, which is not pinned down further.
- RedBlackDelete.Delete: its own contract gives only the size and the bound on the reported item. What it removes is stated by `DeleteItems`, and validity by `DeleteShape`.
- RedBlackNodes.FixUp: its contract gives only that the items are kept. The colour repairs are proved inside the deletion shape lemmas.
- RedBlackNodes.WalkUpRot23: its contract gives only that the items are kept. The repair is stated by `WalkUpRepairs`.

## Findings

| source | as written | input that shows it | evidently intended | confidence | as-written member | corrected member |
|---|---|---|---|---|---|---|
| rbtree/rbtree.go:294-301 | After `moveRedRight` rotates an item up from the left, the equivalence test is made on that item. When it matches the key, the right-minimum replacement runs on a right subtree whose top is black with a red right link (a leaning node), and `deleteMin` there drops its right child. | Insert 2, 1, 1, 0 into an empty tree, then `Delete(1)`: one item is reported deleted, but [0, 1] is all that remains. | Exactly one item equivalent to the key is removed. The test should be made only on a node that was not just rotated. | not executed | RedBlackDelete.DeleteAsWritten | RedBlackDelete.Delete |
| btree/btree.go:990-1008 | DeleteAt records each child index with `uint8(i)`, and the fallback revert follows those entries. | A tree of degree above 128 with a root of more than 256 leaf children. DeleteAt of an item in child `k >= 256` whose leaf is at `min` makes the revert add one to child `k % 256`, while child `k` stays one short. | The revert should restore the counts of the nodes the descent changed. | not executed | BTreePaths.RevertAsWritten | BTrees.BTree.DeleteAt |
