# Binary search tree with parent links

This project models `BinarySearchTree<E>` from
`structure/tree/src/main/java/org/example/binary/BinarySearchTree.java`. It is an
unbalanced binary search tree. Each node refers to its `left` child, its `right`
child and its `parent`. The modelled operations are:

- `add` inserts by an iterative descent.
- `searchNode` looks an element up.
- `preface` finds the in-order predecessor.
- `remove(E)` and `remove(Node)` delete an element. A node with two children takes its predecessor's element first.
- Also modelled: `compareTo`, the stub `contains`, and the node tests `hasTwoChild` and `isLeft`.

Elements are integers, compared by their natural order.

The Java heap becomes an arena inside the class `BinarySearchTree.Tree`:

- Node `i` is the cells `element[i]`, `left[i]`, `right[i]` and `parent[i]`.
- `null` is the index `Null` (-1).
- `new Node(...)` takes the next free index.
- Unlinked nodes stay in the arena.
- Node identity is index equality. `Node` does not override `equals`, so the Java `node.equals(...)` calls compare references.

The ghost field `shape` (module `TreeShape`) is the tree of indices reachable from `root`, as a value. Three predicates tie it to the arena and to the order:

- `Structured()` says the arena cells describe `shape`.
- `Valid()` adds the search-tree order.
- `Parented()` says every reachable node's `parent` cell names the node above it.

The element set `Elements()` and the in-order walk `Sequence()` are read off `shape`.

The code is modelled as written, including where it misbehaves:

- `remove` never decrements `size`.
- `remove` never updates the `parent` of the child it moves up.
- `remove` on a parentless node drops the whole tree, even when the node has a child.
- `isLeft` is a leaf test.
- `contains` always answers `false`.
- `preface` throws a NullPointerException where it calls `.equals` on a missing child. The model returns the value `NullPointer` there.

Next to the as-written members, `PrefaceFixed`, `UnlinkFixed`, `RemoveNodeFixed` and `RemoveFixed` are the evidently intended versions. `RemoveNodeFixed` and `RemoveFixed` are proved to keep every invariant. `PrefaceFixed` changes nothing. `UnlinkFixed` states only its new cells; the invariants after it are proved in `RemoveNodeFixed`. Module `Scenarios` holds concrete call sequences whose outcomes are proved: `main`'s insertion sequence, and the smallest inputs on which the two versions part.

Modules:

- `TreeShape`: shapes and the reference functions on them.
- `ShapeFacts`, `InsertFacts`, `RemoveFacts`: lemmas about shapes.
- `Predecessors`: the predecessor and `preface`'s climb.
- `BinarySearchTree`: the class.
- `Scenarios`: concrete call sequences whose outcomes are proved.

Nothing does I/O. The printing in `preOrder` and `main` is not modelled.

## Model

| member | source | states |
|---|---|---|
| BinarySearchTree.Tree.constructor | structure/tree/src/main/java/org/example/binary/BinarySearchTree.java:26-28 | a new tree has no root, size 0, no elements, and satisfies every invariant |
| BinarySearchTree.Tree.CompareTo | structure/tree/src/main/java/org/example/binary/BinarySearchTree.java:120-122 | the result is positive exactly when `e1 > e2`, negative exactly when `e1 < e2`, and lies in -1..1 |
| BinarySearchTree.Tree.ChildrenMeaning | structure/tree/src/main/java/org/example/binary/BinarySearchTree.java:284-290 | `hasTwoChild` holds iff the node's subtree has both a left and a right subtree; `isLeft` holds iff the node is a leaf |
| BinarySearchTree.Tree.SequenceSorted | structure/tree/src/main/java/org/example/binary/BinarySearchTree.java:42-58 | under the order the descents keep, the in-order walk is strictly increasing, lists exactly the stored elements, and has one entry per reachable node |
| BinarySearchTree.Tree.Add | structure/tree/src/main/java/org/example/binary/BinarySearchTree.java:30-63 | returns true and adds `x` to the element set. An `x` already stored changes nothing. An empty tree gets a root with null parent. Otherwise one new leaf hangs under the last node visited: on its left iff that node's element is greater, with that node as parent. No other cell changes, `size` grows by one, and order and parent links are kept |
| BinarySearchTree.Tree.Plant | structure/tree/src/main/java/org/example/binary/BinarySearchTree.java:34-38 | on an empty tree the new node becomes the root, with null parent, no children and `size` one more |
| BinarySearchTree.Tree.Hang | structure/tree/src/main/java/org/example/binary/BinarySearchTree.java:53-61 | after the descent the new node hangs in the slot of the last visited node on `x`'s side, with that node as parent; order and parent links are kept |
| BinarySearchTree.Tree.Descend | structure/tree/src/main/java/org/example/binary/BinarySearchTree.java:40-52 | the loop reports an equal element iff `x` is stored; otherwise it stops at the insertion point of `x` |
| BinarySearchTree.Tree.SearchNode | structure/tree/src/main/java/org/example/binary/BinarySearchTree.java:185-204 | returns null iff `x` is not stored (an empty tree included); otherwise a reachable node holding `x`; the tree is not changed |
| BinarySearchTree.Tree.Contains | structure/tree/src/main/java/org/example/binary/BinarySearchTree.java:144-146 | the answer is `false` whatever the tree holds |
| BinarySearchTree.Tree.Preface | structure/tree/src/main/java/org/example/binary/BinarySearchTree.java:154-177 | with a left subtree the result is its rightmost node; otherwise it is the climb along the parent links, with the two NullPointerExceptions; every answer that is not a throw is the in-order predecessor |
| BinarySearchTree.Tree.Unlink | structure/tree/src/main/java/org/example/binary/BinarySearchTree.java:83-110 | a parentless node empties the tree; otherwise exactly the parent's slot that held the node now holds its surviving child, or null for a leaf, and no other cell changes |
| BinarySearchTree.Tree.RemoveNode | structure/tree/src/main/java/org/example/binary/BinarySearchTree.java:75-111 | returns true and keeps the order. A node with two children takes its predecessor's element, and the predecessor is unlinked instead. The element set loses exactly the node's element, or becomes empty when the unlinked node is the root. `size` and all `parent` cells stay as they were. The parent links stay consistent iff the unlinked node was the root or had no child |
| BinarySearchTree.Tree.Remove | structure/tree/src/main/java/org/example/binary/BinarySearchTree.java:65-68 | removes the node `searchNode` finds for a stored `x`, with the outcome of `remove(Node)` |
| BinarySearchTree.Tree.PrefaceFixed | structure/tree/src/main/java/org/example/binary/BinarySearchTree.java:154-177 | the climb without the `.equals` calls on missing children always returns the in-order predecessor |
| BinarySearchTree.Tree.UnlinkFixed | structure/tree/src/main/java/org/example/binary/BinarySearchTree.java:83-110 | as `remove`'s unlinking, but the lifted child records its new parent, and a parentless node passes the root to its child |
| BinarySearchTree.Tree.RemoveNodeFixed | structure/tree/src/main/java/org/example/binary/BinarySearchTree.java:75-111 | the element set loses exactly the node's element, `size` drops by one, and order and parent links stay consistent |
| BinarySearchTree.Tree.RemoveFixed | structure/tree/src/main/java/org/example/binary/BinarySearchTree.java:65-68 | removing a stored `x` leaves exactly the other elements, `size` one less, and all invariants |
| Predecessors.PredecessorMeaning | structure/tree/src/main/java/org/example/binary/BinarySearchTree.java:156-176 | the reference predecessor holds the greatest element below the node's, or is `Nil` when the node holds the least element |
| Predecessors.RightmostIsPredecessor | structure/tree/src/main/java/org/example/binary/BinarySearchTree.java:156-161 | the rightmost node of a left subtree holds the greatest element smaller than the node's |
| Predecessors.UpPredIsPredecessor | structure/tree/src/main/java/org/example/binary/BinarySearchTree.java:162-176 | without a left subtree, the deepest ancestor holding the node in its right subtree is the predecessor, and `Nil` means the node holds the minimum |
| Predecessors.PrefaceUpSound | structure/tree/src/main/java/org/example/binary/BinarySearchTree.java:162-176 | where `preface`'s upward branch does not throw, it finds that ancestor |
| Predecessors.WalkUpSound | structure/tree/src/main/java/org/example/binary/BinarySearchTree.java:166-172 | where the climb does not throw, it stops at the first ancestor entered from its right child, or at the root with `Nil` |
| Predecessors.PathParents | structure/tree/src/main/java/org/example/binary/BinarySearchTree.java:166-170 | following `parent` from a node retraces its root-to-node path and ends in null at the root |
| ShapeFacts.SearchFacts | structure/tree/src/main/java/org/example/binary/BinarySearchTree.java:192-203 | in an ordered tree the descent stops at a node holding `x` iff `x` is stored, and runs off the tree otherwise |
| ShapeFacts.ChildOfParent | structure/tree/src/main/java/org/example/binary/BinarySearchTree.java:88-110 | while the parent links are consistent, a non-root node is exactly one of its parent's left and right children, so the final `return false` is never reached |
| ShapeFacts.OrderedInOrder | structure/tree/src/main/java/org/example/binary/BinarySearchTree.java:44-58 | the in-order walk of an ordered tree is strictly increasing and lists exactly its elements |
| InsertFacts.InsertionPointFacts | structure/tree/src/main/java/org/example/binary/BinarySearchTree.java:40-54 | for an absent `x` the descent ends at a node whose slot on `x`'s side is null |
| InsertFacts.AttachPresent | structure/tree/src/main/java/org/example/binary/BinarySearchTree.java:49-51 | inserting an element already stored leaves the shape as it is |
| InsertFacts.AttachElems | structure/tree/src/main/java/org/example/binary/BinarySearchTree.java:53-58 | attaching the new leaf adds exactly `x` to the elements and keeps the order |
| InsertFacts.AttachInto | structure/tree/src/main/java/org/example/binary/BinarySearchTree.java:53-58 | the new cell linked into the insertion point's slot gives a well-formed, linked, ordered tree with one more node and `x` added; the parent links stay consistent |
| RemoveFacts.RemoveMaxFacts | structure/tree/src/main/java/org/example/binary/BinarySearchTree.java:157-160 | the rightmost node holds the maximum, and the tree without it holds exactly the rest, all below it |
| RemoveFacts.SpliceFacts | structure/tree/src/main/java/org/example/binary/BinarySearchTree.java:87-108 | splicing out a node with at most one child keeps the order and removes exactly its element |
| RemoveFacts.CopySpliceFacts | structure/tree/src/main/java/org/example/binary/BinarySearchTree.java:76-82 | copying the predecessor's element into a two-child node and splicing out the predecessor keeps the order and removes exactly the node's old element |
| RemoveFacts.SpliceOutcome | structure/tree/src/main/java/org/example/binary/BinarySearchTree.java:76-108 | for a non-root victim, the arena that `remove(Node)` leaves describes an ordered, linked tree that lost exactly the node's element; for a root victim the tree it describes is the surviving child, as the intended removal leaves it |
| RemoveFacts.ReplacedParent | structure/tree/src/main/java/org/example/binary/BinarySearchTree.java:99-108 | after a child is lifted, the parent links are consistent only if the child's `parent` names the removed node's parent |
| RemoveFacts.SpliceKeepsParents | structure/tree/src/main/java/org/example/binary/BinarySearchTree.java:99-108 | leaving every `parent` field as it is keeps the parent links consistent exactly when the spliced-out node had no child to lift |
| RemoveFacts.SpliceParents | structure/tree/src/main/java/org/example/binary/BinarySearchTree.java:99-108 | giving the lifted child the removed node's parent restores consistent parent links |
| Scenarios.MainRun | structure/tree/src/main/java/org/example/binary/BinarySearchTree.java:293-309 | inserting 10, 6, 4, 16, 7, 12, 20 and removing 10 puts 7 in the root, drops 10 and gives the in-order walk 4, 6, 7, 12, 16, 20, with `size` still 7 |
| Scenarios.ContainsAfterAdd | structure/tree/src/main/java/org/example/binary/BinarySearchTree.java:144-146 | right after `add(5)` the search finds 5 but `contains(5)` answers `false` |
| Scenarios.RemoveRootWithChild | structure/tree/src/main/java/org/example/binary/BinarySearchTree.java:83-86 | removing the root 10 of the tree 10, 16 loses 16 as well; the intended removal keeps it |
| Scenarios.SizeAfterRemove | structure/tree/src/main/java/org/example/binary/BinarySearchTree.java:83-86 | after `add(10)` and `remove(10)` the tree is empty but `size` is 1; the intended removal gives 0 |
| Scenarios.StaleParent | structure/tree/src/main/java/org/example/binary/BinarySearchTree.java:99-103 | after inserting 10, 6, 4 and removing 6, node 4's `parent` still names the node holding 6, which is no longer in the tree |
| Scenarios.PrefaceOfLoneRightChild | structure/tree/src/main/java/org/example/binary/BinarySearchTree.java:164 | `preface` of 16 in the tree 10, 16 throws; its predecessor is the node holding 10 |
| Scenarios.PrefaceOfLeftChain | structure/tree/src/main/java/org/example/binary/BinarySearchTree.java:167 | `preface` of 4 in the tree 10, 6, 4 throws; 4 holds the least element, so the intended answer is null |

## Left out

- `preOrder` (lines 129-142) only prints elements to standard output. Printing is I/O, so it is not modelled.
- The `BinaryTreeInfo` methods `root`, `left`, `right` and `string` (lines 209-242) only feed the external printer. `org.example.printer.BinaryTrees` is not part of this model.
- The `main` method's printing is left out. Its insertions and its removal are `Scenarios.MainRun`.
- The tree with a `Comparator` is not modelled. The dispatch between a comparator and a `Comparable` cast (lines 22-24, 121) becomes the natural order on integers.
- Null elements are not modelled, so neither are the null checks of `add` and `searchNode` (lines 31-33, 186-188). An `int` is never null.
- BinarySearchTree.Tree.Remove: requires `x` to be stored. For an absent `x`, `searchNode` returns null and `remove(Node)` dereferences it at line 76. That exception is not modelled. It also requires consistent parent links, as for RemoveNode.
- BinarySearchTree.Tree.RemoveNode: requires consistent parent links. `remove` itself can leave them inconsistent for a later call. The ensures states exactly when that happens, but calls on such a state are not modelled. For example, after add 10, 6, 4 and remove 6, node 4's `parent` still names the detached node holding 6. A following remove 4 then clears that detached node's slot at line 89 and returns true, while 4 stays in the tree. A third remove 4 finds node 4's `parent` still naming that detached node, whose slots are now both null, so neither test at lines 88 and 93 holds and line 110 returns false. The model does not cover these calls.
- BinarySearchTree.Tree.Unlink: requires consistent parent links, for the same reason as RemoveNode. Its relinking on a state with a stale parent, such as the one add 10, 6, 4 and remove 6 leave, is not modelled.
- BinarySearchTree.Tree.Preface: requires consistent parent links, for the same reason.
- Nodes left unreachable by `remove` stay in the arena. The model has no garbage collection.
- `size` is an unbounded integer. The 32-bit overflow of `size++` after 2^31 insertions is not modelled.

## Findings

| source | as written | input that shows it | evidently intended | confidence | as-written member | corrected member |
|---|---|---|---|---|---|---|
| structure/tree/src/main/java/org/example/binary/BinarySearchTree.java:83-86 | a node without a parent clears `root`, even when it has a child | add 10, add 16, remove 10: 16 is gone too | the surviving child becomes the root | not executed | Scenarios.RemoveRootWithChild | BinarySearchTree.Tree.RemoveNodeFixed |
| structure/tree/src/main/java/org/example/binary/BinarySearchTree.java:75-111 | no path of `remove` decrements `size` | add 10, remove 10: the tree is empty with `size` 1 | `size` drops by one per removed element | not executed | Scenarios.SizeAfterRemove | BinarySearchTree.Tree.RemoveNodeFixed |
| structure/tree/src/main/java/org/example/binary/BinarySearchTree.java:99-108 | the lifted child keeps its old `parent` | add 10, 6, 4, remove 6: node 4's parent is the removed node holding 6 | the lifted child's parent becomes the removed node's parent | not executed | Scenarios.StaleParent | BinarySearchTree.Tree.RemoveNodeFixed |
| structure/tree/src/main/java/org/example/binary/BinarySearchTree.java:164 | `node.parent.left.equals(node)` is called when the parent has no left child | add 10, 16, preface of 16 throws | a right child's predecessor is its parent | not executed | Scenarios.PrefaceOfLoneRightChild | BinarySearchTree.Tree.PrefaceFixed |
| structure/tree/src/main/java/org/example/binary/BinarySearchTree.java:167 | `p.parent.right.equals(p)` is called when that ancestor has no right child | add 10, 6, 4, preface of 4 throws | the climb goes on to the root and answers null for the minimum | not executed | Scenarios.PrefaceOfLeftChain | BinarySearchTree.Tree.PrefaceFixed |
