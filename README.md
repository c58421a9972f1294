# TreeBimap in Dafny

`TreeBimap` is a bidirectional map between strings. Every pair (left key, right key) is one
node carrying two halves. The left halves of all nodes form an AVL tree ordered by left key.
The right halves form a second AVL tree, ordered by right key, threaded through the same nodes.
A sentinel node, `rootParent`, holds both roots as its right children. `put(a, b)` first evicts
the pair that owns `a` on the left and the pair that owns `b` on the right. It then hangs one
fresh node into both trees and walks back up each tree, fixing heights and rotating.
`remove(node)` unlinks a node from both trees, replacing it by its in-order successor when it
has two children, and then fixes both trees. The entry views `left()` and `right()` iterate
in key order, can remove the pair last returned, and test or remove a given entry.
`SimpleBimap` is the reference implementation the tests compare against: two `TreeMap`s,
each the inverse of the other.

How the model is laid out:

- **Handles instead of objects.** A node is a handle (an index); handle `Sentinel` (0) is
  `rootParent` and `Null` (-1) is `null`. Each tree is an `Axes.Axis` object. Its field
  `halves: seq<Half>` stores, per handle, the half's key, left, right, parent and height.
  `TreeBimaps.TreeBimap` owns two axes, `lt` and `rt`, indexed by the same handles, plus the
  `size` counter.
- **One routine per tree operation.** The Java code writes every tree routine twice, once
  per half (`leftRotateLeft`/`rightRotateLeft`, `leftFix`/`rightFix`,
  `leftFind`/`rightFind`, ...). Each pair is a single `Axis` method, called on `lt` or on `rt`.
- **Ghost shape.** Each axis has a ghost `tree: Tree` (`Leaf | Node(left, id, key, right)`).
  `AxisOk` says the links in `halves` spell out that tree below the sentinel. It also says
  the stored heights are the true heights, the tree is AVL-balanced, and its in-order keys
  strictly ascend. A position inside the tree is a zipper path (`seq<Frame>`); the AVL
  fix-up loop keeps the invariant `Walking`.
- **One meaning for both bimaps.** `BimapModel.Bimap` is a pair of maps, each the inverse
  of the other. Each operation's effect on that pair is a function of `BimapModel`
  (`Put`, `LeftRemove`, `RightRemove`, `LeftRemoveEntry`, `RightRemoveEntry`, `PutSeq`).
  Both `SimpleBimaps.SimpleBimap` and `TreeBimaps.TreeBimap` are specified by those same
  functions, so the tree implementation is proved to agree with the reference operation by
  operation. `Coupling.Coupled` ties the two trees to the ghost `model`: the same handles
  on both sides, and the node keyed `a` on the left keyed `model.left[a]` on the right.
- **Key order.** Keys are ordered by `KeyOrder.Less`, the lexicographic order of strings.
  This is the order the default `NaturalOrderingComparator` gives (`String.compareTo`).
  `KeyOrder.Compare` stands for a comparator call and returns only the sign.

Modules: `KeyOrder` (key_order.dfy), `Trees` (trees.dfy: trees, rotations, `Rebalance`,
zippers), `Arena` (arena.dfy: stored halves against trees), `AxisProofs`
(axis_proofs.dfy), `Axes` (axis.dfy), `BimapModel` (bimap_model.dfy), `SimpleBimaps`
(simple_bimap.dfy), `Coupling` (coupling.dfy), `TreeBimaps` (tree_bimap.dfy).

## Model

| member | source | states |
|---|---|---|
| KeyOrder.Compare | src/collections/NaturalOrderingComparator.java:6-9 | the comparator's sign: negative exactly when `a` sorts before `b`, zero exactly when they are equal, positive exactly when `b` sorts first |
| KeyOrder.LessIrreflexive | src/collections/NaturalOrderingComparator.java:6-9 | no key sorts before itself |
| KeyOrder.LessTransitive | src/collections/NaturalOrderingComparator.java:6-9 | the key order is transitive |
| KeyOrder.LessTotal | src/collections/NaturalOrderingComparator.java:6-9 | two distinct keys are always ordered one way or the other |
| KeyOrder.LessAsymmetric | src/collections/NaturalOrderingComparator.java:6-9 | two keys are never ordered both ways |
| BimapModel.InverseSameSize | test/collections/SimpleBimap.java:25-29 | when the two maps are inverse, they have the same number of keys, the fact `size()` asserts |
| BimapModel.LeftRemoveCorrect | test/collections/SimpleBimap.java:46-54 | removing left key `a` keeps the maps inverse, drops `a` and its partner, keeps every other left pair unchanged and adds no key |
| BimapModel.RightRemoveCorrect | test/collections/SimpleBimap.java:57-65 | the same for removing right key `b` |
| BimapModel.PutCorrect | test/collections/SimpleBimap.java:38-43 | after `put(a, b)` the maps are inverse and pair `a` with `b`; a left key is present exactly when it is `a` or was present and not paired with `b`; other pairs keep their partners |
| BimapModel.PutSeqInverse | test/collections/SimpleBimap.java:67-70 | a sequence of puts, as `putAll` performs, keeps the maps inverse |
| BimapModel.PutSeqSnoc | test/collections/SimpleBimap.java:67-70 | `putAll` over a sequence extended by one pair is one more `put` after the shorter `putAll` |
| BimapModel.LeftRemoveEntryCorrect | test/collections/SimpleBimap.java:126-137 | removing the left entry (a, b) is removing left key `a` when `a` is paired with `b`, and changes nothing otherwise |
| BimapModel.RightRemoveEntryCorrect | test/collections/SimpleBimap.java:191-202 | removing the right entry (b, a) is removing right key `b` when `b` is paired with `a`, and changes nothing otherwise |
| BimapModel.PutAfterEviction | src/collections/TreeBimap.java:468-477 | after the two evictions neither `a` nor `b` is present, and inserting the fresh pair then gives the same bimap as the reference `put` |
| BimapModel.EvictsAll | src/collections/TreeBimap.java:468-487 | when every pair of a non-empty bimap owns `a` on the left or `b` on the right, the evictions leave it empty |
| BimapModel.EvictsAllExample | src/collections/TreeBimap.java:479-487 | {a↦x} with `put("a", "y")` is such a case: after the evictions the root `put` descends from is null |
| BimapModel.PutSeqAsWrittenAgrees | src/collections/TreeBimap.java:560-563 | a `putAll` made of `put`s as written, when no `put` crashes, gives the same bimap as the reference `putAll` |
| BimapModel.PutSeqAsWrittenExample | src/collections/TreeBimap.java:560-563 | {a↦x} with `putAll` of {a↦y} crashes on its first `put` and leaves the bimap empty, where the reference gives {a↦y} |
| BimapModel.RightEntryMixupExample | src/collections/TreeBimap.java:727-733 | in {a↦x} the right entry (x, a) is present and the swapped pair (a, x) is not, so testing the swapped pair answers wrongly |
| SimpleBimaps.SimpleBimap.constructor | test/collections/SimpleBimap.java:10-13 | a new reference bimap is empty and its maps are inverse |
| SimpleBimaps.SimpleBimap.Size | test/collections/SimpleBimap.java:25-29 | the size is the number of keys of either map |
| SimpleBimaps.SimpleBimap.IsEmpty | test/collections/SimpleBimap.java:31-35 | empty exactly when the left map is, and exactly when the right map is |
| SimpleBimaps.SimpleBimap.Put | test/collections/SimpleBimap.java:37-43 | the two maps become `BimapModel.Put` of the old ones and stay inverse |
| SimpleBimaps.SimpleBimap.LeftRemove | test/collections/SimpleBimap.java:45-54 | the maps become `BimapModel.LeftRemove` of the old ones; the result is the old partner of `a`, or none |
| SimpleBimaps.SimpleBimap.RightRemove | test/collections/SimpleBimap.java:56-65 | the same for a right key |
| SimpleBimaps.SimpleBimap.Clear | test/collections/SimpleBimap.java:72-76 | both maps become empty |
| SimpleBimaps.SimpleBimap.LeftContains | test/collections/SimpleBimap.java:113-119 | true exactly when the bimap has the left entry (a, b), the same test `BimapModel.LeftRemoveEntry` makes |
| SimpleBimaps.SimpleBimap.LeftRemoveEntry | test/collections/SimpleBimap.java:126-137 | the maps become `BimapModel.LeftRemoveEntry` of the old ones; true exactly when the entry was present |
| SimpleBimaps.SimpleBimap.RightContains | test/collections/SimpleBimap.java:178-184 | true exactly when the bimap has the right entry (b, a), the same test `BimapModel.RightRemoveEntry` makes |
| SimpleBimaps.SimpleBimap.RightRemoveEntry | test/collections/SimpleBimap.java:191-202 | the maps become `BimapModel.RightRemoveEntry` of the old ones; true exactly when the entry was present |
| Trees.RotateLeft | src/collections/TreeBimap.java:188-195 | a left rotation keeps the in-order entries and the set of nodes |
| Trees.RotateRight | src/collections/TreeBimap.java:206-213 | a right rotation keeps the in-order entries and the set of nodes |
| Trees.RebalanceCorrect | src/collections/TreeBimap.java:227-247 | one fix-up step on a node whose subtrees are balanced and differ in height by at most two gives a balanced tree with the same entries and nodes; it changes nothing when the node is already balanced; the height grows by at most one over the taller child |
| Trees.RebalanceRightHeavy | src/collections/TreeBimap.java:232-239 | when the right side is two taller, the single or double left rotation balances it and its height is that of the right child or one more |
| Trees.RebalanceLeftHeavy | src/collections/TreeBimap.java:240-247 | the mirror case for a left side two taller |
| AxisProofs.AttachCorrect | src/collections/TreeBimap.java:521-531 | a fresh node hung where the key search stopped keeps the keys ascending and appears in order between the entries before and after it |
| AxisProofs.WalkRotated | src/collections/TreeBimap.java:232-247 | after the rotations at a tilted node, the walk stands on the new subtree root with the same entries, and the old node's parent is that root |
| AxisProofs.RotatedLeft | src/collections/TreeBimap.java:188-195 | the stores a left rotation leaves spell out the rotated subtree with correct heights, keep all keys, and leave the heights outside the subtree unchanged |
| AxisProofs.RotatedRight | src/collections/TreeBimap.java:206-213 | the same for a right rotation |
| AxisProofs.SplicedCorrect | src/collections/TreeBimap.java:361-377 | cutting out a node with at most one child leaves that child stored in its place |
| AxisProofs.TransplantedCorrect | src/collections/TreeBimap.java:378-395 | moving the successor into a removed node's place stores the same subtree with the successor at its root |
| AxisProofs.SuccessorItems | src/collections/TreeBimap.java:349-395 | replacing a node with two children by its successor, and splicing the successor out of the right subtree, drops exactly that node's entry from the in-order sequence |
| Axes.Axis.constructor | src/collections/TreeBimap.java:289 | a new axis holds only the sentinel and is an empty, well-formed tree |
| Axes.Axis.RootHandle | src/collections/TreeBimap.java:302 | the root is `rootParent.*.right`, null exactly when the axis holds no entry |
| Axes.Axis.Find | src/collections/TreeBimap.java:316-344 | returns null exactly when the key is absent, and otherwise a node holding that key |
| Axes.Axis.Leftmost | src/collections/TreeBimap.java:58-72 | returns the first entry in order of the subtree |
| Axes.Axis.Rightmost | src/collections/TreeBimap.java:74-88 | returns the last entry in order of the subtree |
| Axes.Axis.Next | src/collections/TreeBimap.java:90-112 | returns the in-order successor of position `i`; from the sentinel, the first entry |
| Axes.Axis.Prev | src/collections/TreeBimap.java:114-136 | returns the in-order predecessor of position `i`; before the first entry, the sentinel |
| Axes.Axis.HasNextFrom | src/collections/TreeBimap.java:595-605 | true exactly when an entry follows position `i` |
| Axes.Axis.Descend | src/collections/TreeBimap.java:486-519 | the search for an absent key stops at the empty slot between the entries below and above it, and reports the parent and the side |
| Axes.Axis.Attach | src/collections/TreeBimap.java:521-531 | the new node is stored at that slot, with its key inserted in order, and the fix-up walk may start at its parent |
| Axes.Axis.Insert | src/collections/TreeBimap.java:479-534 | one axis gains exactly one fresh node with the key, stays a well-formed AVL tree and keeps the keys of all other nodes |
| Axes.Axis.Clear | src/collections/TreeBimap.java:454-458 | the axis becomes empty: only the sentinel's root link changes |
| Axes.Axis.FixHeight | src/collections/TreeBimap.java:39-45 | the node's height becomes one more than the larger child height; nothing else changes |
| Axes.Axis.SetLeft | src/collections/TreeBimap.java:160-172 | sets the left child and, when it is not null, its parent link |
| Axes.Axis.SetRight | src/collections/TreeBimap.java:174-186 | sets the right child and, when it is not null, its parent link |
| Axes.Axis.ReplaceWith | src/collections/TreeBimap.java:138-158 | the parent's link to the node now points to `other`, whose parent link is updated |
| Axes.Axis.RotateLeft | src/collections/TreeBimap.java:188-204 | the axis now stores the left-rotated subtree in the same place, with correct heights and the same keys; heights outside the subtree are unchanged |
| Axes.Axis.RotateRight | src/collections/TreeBimap.java:206-222 | the same for a right rotation |
| Axes.Axis.FixRightHeavy | src/collections/TreeBimap.java:232-239 | a node whose right side is two taller is rebalanced in place; the walk continues from the new subtree root with the same entries and keys |
| Axes.Axis.FixLeftHeavy | src/collections/TreeBimap.java:240-247 | the mirror case |
| Axes.Axis.Fix | src/collections/TreeBimap.java:224-284 | the walk from the changed node up to the sentinel leaves a well-formed AVL tree with the same in-order entries and the same keys |
| Axes.Axis.SpliceOut | src/collections/TreeBimap.java:361-377 | the node's parent link goes to its only child, which gets the node's parent |
| Axes.Axis.Transplant | src/collections/TreeBimap.java:378-395 | the successor takes the removed node's children and parent, and the removed node is cut loose |
| Axes.Axis.Unlink | src/collections/TreeBimap.java:346-395 | removing the node at in-order position `i` drops exactly that entry, keeps all keys, and leaves the fix-up walk ready to run |
| Axes.Axis.UnlinkOuter | src/collections/TreeBimap.java:357-377 | the same for a node with at most one child, which is spliced out |
| Axes.Axis.UnlinkInner | src/collections/TreeBimap.java:349-395 | the same for a node with two children, which is replaced by its successor |
| Axes.Axis.ReplaceBySuccessor | src/collections/TreeBimap.java:361-395 | the successor is spliced out of the right subtree and put in the node's place; the walk starts at the successor's old parent, or at the successor itself when it was the right child |
| Coupling.CheckNodeHolds | src/collections/TreeBimap.java:47-56 | every node of a well-formed subtree passes `checkInvariant` |
| Coupling.LocalOkAll | src/collections/TreeBimap.java:47-56 | every node of a well-formed subtree satisfies the per-node conditions: parent links, key order, stored height, balance |
| Coupling.CheckAllHolds | src/collections/TreeBimap.java:301-304 | two well-formed axes over the same nodes pass the bimap's `checkInvariant` |
| Coupling.CoupledRemove | src/collections/TreeBimap.java:346-451 | removing one node's entries from both trees removes the pair it holds from the bimap, whichever key names it |
| Coupling.CoupledGrown | src/collections/TreeBimap.java:521-535 | one fresh node hung into both trees adds exactly the pair (a, b) |
| Coupling.CoupledCleared | src/collections/TreeBimap.java:454-458 | two empty trees stand for the empty bimap |
| Coupling.PairsCount | src/collections/TreeBimap.java:307-309 | the node count of an axis is the number of keys in the bimap |
| Coupling.PairsExact | src/collections/TreeBimap.java:589-615 | the pairs read off an axis in order are strictly ascending and are exactly the pairs of the bimap |
| TreeBimaps.TreeBimap.constructor | src/collections/TreeBimap.java:289-299 | a new bimap is empty with size 0 |
| TreeBimaps.TreeBimap.CheckInvariantHolds | src/collections/TreeBimap.java:301-304 | every valid bimap passes its own `checkInvariant` |
| TreeBimaps.TreeBimap.Size | src/collections/TreeBimap.java:306-309 | the size counter is the number of pairs |
| TreeBimaps.TreeBimap.IsEmpty | src/collections/TreeBimap.java:311-314 | empty exactly when there is no pair |
| TreeBimaps.TreeBimap.Remove | src/collections/TreeBimap.java:346-451 | the node is dropped from both trees at its in-order positions; both trees stay well formed and keep all keys; the bimap loses exactly that node's pair |
| TreeBimaps.TreeBimap.LeftRemove | src/collections/TreeBimap.java:538-547 | the bimap becomes `BimapModel.LeftRemove` of the old one; the result is the old partner of `a`, or none |
| TreeBimaps.TreeBimap.RightRemove | src/collections/TreeBimap.java:549-558 | the same for a right key |
| TreeBimaps.TreeBimap.Clear | src/collections/TreeBimap.java:453-458 | the bimap becomes empty with size 0 |
| TreeBimaps.TreeBimap.PlantRoot | src/collections/TreeBimap.java:462-466 | on an empty bimap, one node becomes the root of both trees and the bimap becomes {a↦b} |
| TreeBimaps.TreeBimap.InsertPair | src/collections/TreeBimap.java:479-534 | one fresh node is inserted into both trees, keyed `a` on the left and `b` on the right: both trees stay well formed, hold one more entry, and together stand for the bimap with the pair (a, b) added |
| TreeBimaps.TreeBimap.Insert | src/collections/TreeBimap.java:479-535 | inserting a pair whose keys are both absent gives `BimapModel.Put` of the old bimap |
| TreeBimaps.TreeBimap.Put | src/collections/TreeBimap.java:461-535 | `put` with the emptiness test repeated after the evictions: the bimap becomes `BimapModel.Put` of the old one, as the reference `put` does |
| TreeBimaps.TreeBimap.PutAsWritten | src/collections/TreeBimap.java:461-535 | `put` as written: it reaches the null dereference exactly when a non-empty bimap is emptied by the evictions, and otherwise agrees with the reference `put` |
| TreeBimaps.TreeBimap.LeftContains | src/collections/TreeBimap.java:630-635 | true exactly when `a` is a left key paired with `b` |
| TreeBimaps.TreeBimap.LeftRemoveEntry | src/collections/TreeBimap.java:647-657 | the bimap becomes `BimapModel.LeftRemoveEntry` of the old one; true exactly when the entry was present |
| TreeBimaps.TreeBimap.RightContainsAsWritten | src/collections/TreeBimap.java:727-732 | as written, it answers whether the swapped pair is a right entry: whether `a` is a right key paired with `b` |
| TreeBimaps.TreeBimap.RightRemoveEntryAsWritten | src/collections/TreeBimap.java:744-754 | as written, it removes the swapped right entry (a, b) when present and reports that |
| TreeBimaps.TreeBimap.RightContains | src/collections/TreeBimap.java:727-732 | corrected: true exactly when `b` is a right key paired with `a`, as in the reference |
| TreeBimaps.TreeBimap.RightRemoveEntry | src/collections/TreeBimap.java:744-754 | corrected: the bimap becomes `BimapModel.RightRemoveEntry` of the old one; true exactly when the entry was present |
| TreeBimaps.TreeBimap.EntriesExact | src/collections/TreeBimap.java:589-615 | the entries an iterator yields, left or right, are strictly ascending by key, as many as the pairs, and are exactly the pairs of that view |
| TreeBimaps.TreeBimap.RemoveAt | src/collections/TreeBimap.java:618-626 | removing the entry at position `p` of a view removes its pair from the bimap, drops exactly that entry from the view, and returns the predecessor's node |
| TreeBimaps.TreeBimap.Step | src/collections/TreeBimap.java:612-614 | from the node at position `p` of a view, the successor node is the one at position `p + 1`, and the pair it holds is that view's entry `p + 1` |
| TreeBimaps.TreeBimap.LeftDropAt | src/collections/TreeBimap.java:618-626 | the same on the left view, as the left key's removal |
| TreeBimaps.TreeBimap.RightDropAt | src/collections/TreeBimap.java:715-725 | the same on the right view, as the right key's removal |
| TreeBimaps.TreeBimap.PutAll | src/collections/TreeBimap.java:560-563 | corrected: with the corrected `put`, the bimap becomes the old one with every pair of `other` put in left-key order, as the reference `putAll` does |
| TreeBimaps.TreeBimap.PutAllAsWritten | src/collections/TreeBimap.java:560-563 | as written: the pairs of `other` are put in left-key order with `put` as written, stopping at the first null dereference; the bimap and the crash flag are `BimapModel.PutSeqAsWritten` of the old bimap and those pairs |
| TreeBimaps.EntryIterator.constructor | src/collections/TreeBimap.java:589-592 | a new iterator stands before the first entry with no entry to remove |
| TreeBimaps.EntryIterator.HasNext | src/collections/TreeBimap.java:595-605 | true exactly when another entry of the view follows |
| TreeBimaps.EntryIterator.Next | src/collections/TreeBimap.java:608-615 | returns the entry of the view that follows the iterator's position, in key order, moves one position on and allows one removal; with no next entry it returns none and changes nothing |
| TreeBimaps.EntryIterator.Remove | src/collections/TreeBimap.java:618-626 | removes the pair last returned, steps back so iteration continues with its successor, and refuses when no entry was returned since the last removal |

## Left out

- The map adapters `left()` and `right()`: `get`, `containsKey` and `remove(key)` are `Find` and
  the two key removals, already modelled. `toString`, the record `Entry` with its
  unsupported `setValue`, and the entry sets' `size` and `clear` are forwarders or formatting.
  They are not modelled.
- `UpgradedBimap`, the `Bimap` interface and the test drivers (`BimapChecker`, `MapChecker`,
  `TreeBimapTest`) are not part of this model.
- `SimpleBimap`'s constructors that take a map supplier or comparators, its iterators and
  its `putAll` are not modelled as methods. Its `putAll` semantics is `BimapModel.PutSeq`, which
  `TreeBimaps.TreeBimap.PutAll` is proved against.
- Comparators: both trees use the one key order `KeyOrder.Less`, the natural order of
  strings. Custom comparators, and comparators inconsistent with equality, are not modelled.
  Java compares UTF-16 code units while Dafny compares characters; the two agree on the
  Basic Multilingual Plane only.
- `null` keys and the `ClassCastException` of a non-entry argument are not modelled. Java
  `assert` statements become proof obligations, and the `AssertionError` for a balance
  outside -2..2 is proved unreachable.
- Coupling.CheckNodeHolds: the recursion of `checkInvariant` is bounded by a fuel parameter
  (the stored root height). A correct tree never needs more. Like the Java method, the check
  recurses through the left tree only.
- TreeBimaps.TreeBimap.PutAll, TreeBimaps.TreeBimap.PutAllAsWritten: `other` must be a different `TreeBimap` sharing no axis with
  this one. `putAll(this)` and a `SimpleBimap` argument are not modelled.
- TreeBimaps.TreeBimap.PutAsWritten: the null dereference is reported as `crashed`, and
  the state it leaves is the state after the evictions. The exception itself is not modelled.
- TreeBimaps.TreeBimap.Insert: the fresh node is inserted into the left tree, and that tree
  is fixed, before the right tree is searched. Java searches both trees before linking and
  fixing either. The two orders give the same trees, because the searches of the two trees
  do not read each other's halves.
- Axes.Axis.Next: requires an entry after position `i`. Java's `leftNext` on the last entry
  dereferences the sentinel's null parent; the iterator only calls it after `hasNext`.
- TreeBimaps.EntryIterator.Next: returns none where Java throws `NoSuchElementException`.
- TreeBimaps.EntryIterator.Remove: returns false where Java throws `IllegalStateException`.
- Iteration while the bimap is changed by other means than the iterator itself, and the
  results of that, are not modelled.
- Nodes are handles into per-axis sequences, not heap objects. A removed node keeps its
  handle and is unlinked, so the stores only grow. `Size` reads the `size` counter, as Java does.
- Java's `int` overflow of `size` beyond 2^31 - 1 pairs is not modelled.

## Findings

| source | as written | input that shows it | evidently intended | confidence | as-written member | corrected member |
|---|---|---|---|---|---|---|
| src/collections/TreeBimap.java:479-487 | after the evictions, `put` descends from `rootParent.leftHalf.right` without testing it again, though the evictions may have emptied the bimap. `putAll` (TreeBimap.java:560-563) calls this `put` and inherits the crash | a bimap {a↦x} and `put("a", "y")`, or `putAll` of a bimap {a↦y}: the left eviction removes the only pair, and `leftNode.leftHalf` is read on `null` | test emptiness after the evictions and plant a new root as on an empty bimap, giving {a↦y} as the reference `put` and `putAll` do | not executed | TreeBimaps.TreeBimap.PutAsWritten, BimapModel.EvictsAllExample, TreeBimaps.TreeBimap.PutAllAsWritten, BimapModel.PutSeqAsWrittenExample | TreeBimaps.TreeBimap.Put, TreeBimaps.TreeBimap.PutAll |
| src/collections/TreeBimap.java:727-754 | `right().entrySet()` `contains` and `remove` look up `entry.getValue()` in the right tree and compare `entry.getKey()` with the left key. A right entry's key is the right key, so the roles are swapped | a bimap {a↦x}: `right().entrySet().contains(entry("x", "a"))` searches the right tree for "a" and answers false, while the reference answers true; `contains(entry("a", "x"))` answers true | look up `entry.getKey()` in the right tree and compare its left key with `entry.getValue()`, as the left entry set and the reference do | not executed | TreeBimaps.TreeBimap.RightContainsAsWritten, TreeBimaps.TreeBimap.RightRemoveEntryAsWritten, BimapModel.RightEntryMixupExample | TreeBimaps.TreeBimap.RightContains, TreeBimaps.TreeBimap.RightRemoveEntry |
