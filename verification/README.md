# Weight-biased leftist heap with locators, in Dafny

This project models `WtLeftHeap`, a weight-biased leftist max-heap whose
elements are (key, value) pairs. `insert` hands back a *locator*: a handle
that keeps denoting the same element while `updateKey` moves elements between
nodes.

The model has five modules:

- **`LeftistTree`**
  - The value-level reference definition: a `Tree<D>` datatype with
    `Weight`, `Merge` (with its step `Link`) and the debug dump `List`.
  - `Merge` and `Link` take the branches of the source's `merge` in order. The
    source's `weight` splits a node four ways on which children are absent;
    `LeftistTree.Weight` counts an absent child as 0 and so has one case. The
    four-way recursion itself is `Heap.WtLeftHeap.Weight`. `List` is the token
    sequence that `listHelper` appends.
  - Lemmas prove that merging keeps every element and keeps heap order, the
    weight bias and distinctness.
  - They also prove that the dump has 2n + 1 tokens, n + 1 of them absent
    markers, and can be parsed back into the tree.
- **`NodeStore`**
  - The memory that `Node` and `Locator` objects live in, as an
    index-addressed arena: class `Store`, with one sequence per field
    (`key`, `value`, `left`, `right`, `parent`, `loc`, and the locator's
    `node`, called `target`). A null reference is `-1`.
  - One store is shared by all heaps, as the JVM heap is, so `mergeWith` can
    move nodes between heaps. A new node and a new locator are appended at the
    end of the store, so they are fresh for every heap, as `new` is.
  - Ghost predicates relate a region of the arena to a `Tree<nat>` of node ids:
    - `Realizes`: the left/right links have that shape;
    - `Parented`: the parent links agree;
    - `Contents`: the elements held, by locator.
  - `LinksKeptOutside` and `ContentsKeptOutside` say that an operation left
    every node outside a given set as it was. `HeapUntouched` turns them into
    the frame rule for heaps sharing a store: a heap none of whose nodes was
    touched keeps its shape and its elements.
  - Lemmas state how each relinking or content swap changes these.
- **`Sift`**
  - The two phases of `updateKey`, one swap at a time.
  - Heap order is tracked edge by edge, so one "loose" node may break it:
    the edge above it on the way up, the edges below it on the way down.
  - `ChildToSwap` is the source's choice of child on the way down.
  - `UpWalk` and `DownWalk` are the paths the new key takes, defined on the
    keys before any swap. The up path passes only strictly smaller parents.
    The down path follows `ChildToSwap` at each step. `Walk` picks between the
    two as `updateKey` does.
- **`Heap`**
  - Class `WtLeftHeap` with the source's fields `root` and `size`, plus a
    ghost `tree` describing the nodes below `root`.
  - `Valid()` is the class invariant. The links realize `tree` and the parent
    links match. No node appears twice, and the root has no parent. The tree
    is a max-heap and weight-biased, and `size` is its node count.
  - The operations that change a heap (`insert`, `mergeWith`, `extract`,
    `updateKey`, `clear`) are methods that keep `Valid()`. Each one states the
    heap's new elements (`Elems()`: locator ↦ (key, value)) in terms of the old
    ones, the node ids the heap now owns, and which parts of the shared store
    it left alone. `size`, `peekKey` and `peekValue` are functions of a valid
    heap. The recursive helpers `weight`, `merge` and `listHelper` work on a
    subtree described by a ghost `Tree`.
  - Recursive `merge` rewires links in place and is proved to build exactly
    the tree `LeftistTree.Merge` describes.
  - `updateKey`'s two loops swap contents and re-point locators. Their loop
    invariants are the edge-wise heap order of `Sift` and the walk taken so
    far. `updateKey` ends with the locator on the last node of `Walk`, and
    only the nodes of that walk change.
  - `InsertBeside` is the frame rule seen from a client: inserting into one
    heap leaves a second heap on the same store as it was.
- **`Scenarios`**
  - Clients of the class, proved from the operations' contracts alone.
  - `TwoSingletons` and `InsertTwoAndMerge` fill two heaps from one store and
    merge them, using the frame rule above.
  - `InsertTie` inserts two equal keys, and the first element stays on top.
  - `UpdateKeyTie` inserts (10, a), (5, b), (5, c) and (5, d), then lowers the
    first key to 0. The walk is known in advance: the root, then its left
    child (which wins the tie between two children of key 5), then that
    child's only child. So the third element inserted, c, ends on top.

## Model

| member | source | states |
|---|---|---|
| LeftistTree.Weight | WtLeftHeap.java:37-50 | a subtree weighs 0 exactly when it is absent |
| LeftistTree.WeightCounts | WtLeftHeap.java:37-50 | a subtree's weight is its number of nodes |
| LeftistTree.DistinctCounts | WtLeftHeap.java:37-50 | in a tree that reaches no node twice, the weight is the number of distinct nodes |
| LeftistTree.Merge | WtLeftHeap.java:56-91 | the merged tree holds exactly the nodes of both trees, and its root is one of the two roots |
| LeftistTree.Link | WtLeftHeap.java:75-90 | after the winner is chosen, the result keeps the winner's root and holds the nodes of both trees |
| LeftistTree.MergeAbsent | WtLeftHeap.java:60-66 | merging with an absent side returns the other side unchanged |
| LeftistTree.MergeRoot | WtLeftHeap.java:69-73 | the merged root is the root with the larger key, and the first argument's root on equal keys |
| LeftistTree.RootIsMax | WtLeftHeap.java:69-73 | in a heap-ordered tree no key exceeds the root's key |
| LeftistTree.MergeElements | WtLeftHeap.java:56-91 | merge keeps every element of both trees with multiplicity and adds none |
| LeftistTree.LinkElements | WtLeftHeap.java:75-90 | the same for the step after the winner is chosen |
| LeftistTree.MergeHeapOrdered | WtLeftHeap.java:69-90 | merging two max-heaps gives a max-heap |
| LeftistTree.LinkHeapOrdered | WtLeftHeap.java:75-90 | hanging a smaller-rooted heap below the winner keeps max-heap order |
| LeftistTree.MergeWeightBiased | WtLeftHeap.java:84-88 | merging two weight-biased trees gives one in which every left child weighs at least its right sibling |
| LeftistTree.LinkWeightBiased | WtLeftHeap.java:75-88 | filling the empty left slot, or swapping after the right merge, restores the weight bias |
| LeftistTree.MergeDistinct | WtLeftHeap.java:56-91 | merging two trees with no common node gives a tree that reaches no node twice |
| LeftistTree.LinkDistinct | WtLeftHeap.java:75-90 | the same for the step after the winner is chosen |
| LeftistTree.RootMembers | WtLeftHeap.java:184-190 | without its root, a tree that reaches no node twice has exactly the nodes of its two subtrees |
| LeftistTree.List | WtLeftHeap.java:97-109 | the dump of n nodes has 2n + 1 tokens |
| LeftistTree.ListAbsent | WtLeftHeap.java:97-109 | n + 1 of those tokens are absent-child markers, one per null child |
| LeftistTree.ListParse | WtLeftHeap.java:97-109 | the dump determines the tree: parsing it back yields the tree, every payload and shape included |
| NodeStore.Store.NewNode | WtLeftHeap.java:134-144 | a fresh node holding (x, v) with no links, and a fresh locator denoting it, both at the end of the store; nothing else changes |
| NodeStore.Store.SwapContents | WtLeftHeap.java:217-231 | two nodes exchange key, value and locator, both locators are re-pointed, every link is unchanged, each locator still denotes the node that names it, and no other node's contents change |
| NodeStore.AttachLeft | WtLeftHeap.java:75-77 | hanging the loser in the winner's empty left slot lays out the tree Link prescribes, with parent links, changing only the winner's and loser's links |
| NodeStore.LinkRight | WtLeftHeap.java:80-88 | after the right merge, linking the result as right child, and swapping when the left is lighter, lays out the tree Link prescribes |
| NodeStore.DetachShaped | WtLeftHeap.java:184-190 | once their parent links are nulled, the root's children are valid heaps whose sizes add up to one less than the heap's |
| NodeStore.ShapedMerge | WtLeftHeap.java:56-91 | merging two valid heaps laid out in the arena gives a valid heap whose size is the sum |
| NodeStore.NewSingleton | WtLeftHeap.java:146-149 | the new node is a valid one-element heap, and the existing heap stays valid in the grown arena |
| NodeStore.NewSingletonContents | WtLeftHeap.java:142-144 | the new locator is not used by the heap, the heap's elements are unchanged, and the singleton holds exactly (x, v) under the new locator |
| NodeStore.MergeContents | WtLeftHeap.java:152-154 | the merged heap's elements are the union of both heaps' elements, whose locators are disjoint |
| NodeStore.ContentsSetKey | WtLeftHeap.java:205 | writing x into the located node changes that element's key to x and nothing else |
| NodeStore.ContentsExchange | WtLeftHeap.java:217-231 | exchanging two nodes' contents together with their locators leaves the heap's elements unchanged |
| NodeStore.ContentsBelowRoot | WtLeftHeap.java:308-309 | the root's element is in the heap and its key is at least every element's key |
| NodeStore.ContentsRemoveRoot | WtLeftHeap.java:181-194 | the tree of the root's children holds the heap's elements minus the root's |
| NodeStore.LocatorsCount | WtLeftHeap.java:118-120 | a heap of n distinct nodes is denoted by exactly n locators |
| NodeStore.HeapUntouched | WtLeftHeap.java:132-170 | a heap none of whose nodes had its links or contents changed keeps its shape and its elements, whatever happened to the rest of the store |
| Sift.ChildToSwap | WtLeftHeap.java:250-277 | 0 exactly when no child beats x; otherwise a child whose key beats x and is the larger of the two, the right only when strictly larger |
| Sift.ChildToSwapKeys | WtLeftHeap.java:250-277 | the choice depends only on the two children's keys |
| Sift.StartUpdate | WtLeftHeap.java:205-211 | after x is written, heap order is broken at most on the edge into the node (if x beats the parent) or on the edges out of it (otherwise) |
| Sift.UpStep | WtLeftHeap.java:215-234 | swapping with a smaller parent moves the loose spot one level up and keeps every other edge ordered |
| Sift.UpDone | WtLeftHeap.java:215 | when the parent is absent or not smaller, the whole tree is heap-ordered |
| Sift.DownStep | WtLeftHeap.java:283-302 | swapping with the larger child that beats x moves the loose spot one level down and keeps every other edge ordered |
| Sift.DownDone | WtLeftHeap.java:248-277 | when no child beats x, the whole tree is heap-ordered |
| Sift.ParentDepth | WtLeftHeap.java:233-234 | a parent is strictly shallower than its child, and no node is deeper than the tree's size, which bounds both loops |
| Sift.UpWalk | WtLeftHeap.java:215-235 | the up path starts at the updated node, each next node is the parent of the previous one and was passed only because its key is strictly below x, and it ends at the first node whose parent is absent or not smaller |
| Sift.DownWalk | WtLeftHeap.java:248-302 | the down path starts at the updated node, each next node is the child ChildToSwap picks (left on a tie), and it ends at the first node no child of which beats x |
| Sift.RotatedStep | WtLeftHeap.java:217-231 | one more swap between the walk's current node and its unvisited successor extends the rotation by one node |
| Sift.RotatedAlong | WtLeftHeap.java:215-302 | once x has reached the end of the walk, the (key, value, locator) triples along the walk are the old ones rotated back by one place |
| Sift.RotatedHead | WtLeftHeap.java:217-231 | after that rotation, the walk's first node holds the old contents of its second node |
| Sift.Walk | WtLeftHeap.java:209-248 | the path of the whole update starts at the updated node and stays inside the tree |
| Heap.WtLeftHeap.constructor | WtLeftHeap.java:111-114 | a new heap is valid, empty and holds no element |
| Heap.WtLeftHeap.Weight | WtLeftHeap.java:37-50 | the four-way recursion returns the number of nodes of the subtree |
| Heap.WtLeftHeap.Merge | WtLeftHeap.java:56-73 | the returned root is one of the two roots; the links now realize LeftistTree.Merge with consistent parent links; only the two trees' nodes are touched and no content moves |
| Heap.WtLeftHeap.Link | WtLeftHeap.java:75-90 | the links below the winner realize LeftistTree.Link and only nodes of the two trees change |
| Heap.WtLeftHeap.RestoreLeftist | WtLeftHeap.java:84-89 | the two children of the node swap places exactly when the left one is strictly lighter, and nothing else changes |
| Heap.WtLeftHeap.ListHelper | WtLeftHeap.java:97-109 | appends to the accumulator exactly the dump of the subtree's (key, value) tree |
| Heap.WtLeftHeap.List | WtLeftHeap.java:320-322 | the dump of the whole heap, of length 2·size + 1, and a single absent marker for an empty heap |
| Heap.WtLeftHeap.Size | WtLeftHeap.java:118-120 | size is the number of elements the heap holds, counted both as nodes and as locators |
| Heap.WtLeftHeap.Clear | WtLeftHeap.java:123-126 | the heap is valid and empty afterwards |
| Heap.WtLeftHeap.Insert | WtLeftHeap.java:132-156 | size grows by one; the store's keys, values and locator targets are the old ones with x, v and the new node appended; the elements are the old ones plus (x, v) under a locator never handed out before (the next locator index of the shared store), which denotes a node naming it back; the new tree is the merge of the old tree with the new node's singleton (first argument kept on equal keys); the heap's nodes are its old ones plus the new node; no node outside the heap changes its links, and no node's contents change |
| Heap.WtLeftHeap.MergeWith | WtLeftHeap.java:161-170 | with h2 null or this, nothing changes: root, size, tree and every link of the store stay as they were; otherwise the new tree is the merge of the two old trees, sizes add, the elements become the disjoint union, the nodes become the union of both heaps' nodes, h2 is left valid and empty, no content moves and only the two heaps' links change |
| Heap.WtLeftHeap.Extract | WtLeftHeap.java:176-196 | an empty heap reports EmptyHeap and is unchanged; otherwise it returns the value of an element of maximum key and removes exactly that element and its node, the new tree being the merge of the old root's two subtrees, size dropping by one; no content moves and only the heap's links change |
| Heap.WtLeftHeap.DetachRoot | WtLeftHeap.java:183-194 | the new tree is the merge of the old root's two subtrees, holding every old node but the root; size drops by one and no content moves |
| Heap.WtLeftHeap.UpdateKey | WtLeftHeap.java:202-305 | the heap stays valid; the located element's key becomes x and its value and every other element are unchanged; no link changes; the locator ends on the last node of Walk, up past strictly smaller parents or else down by ChildToSwap; along the walk each node now holds the key, value and locator its successor held (with x written in), and the last node holds the moved element, so in particular the updated node holds the old contents of the walk's second node; no node off the walk changes contents |
| Heap.WtLeftHeap.Sift | WtLeftHeap.java:209-248 | the up phase runs when the parent is strictly smaller, and the down phase only when the up phase did not run; the result is heap order, the same elements, the locator on the last node of Walk, the contents along the walk rotated back by one place (each node holds its successor's old key, value and locator, the last node the moved element), and no other node changed |
| Heap.WtLeftHeap.SiftUp | WtLeftHeap.java:209-241 | x moves up along UpWalk, so only past strictly smaller parents to an ancestor of its start; heap order is restored, the elements and links are unchanged; each node of the path now holds the key, value and locator of the next node up, the last one holds x's element, and no other node changes contents |
| Heap.WtLeftHeap.SwapUp | WtLeftHeap.java:217-234 | one upward swap: the node and its parent exchange key, value and locator, each locator is re-pointed at its element's new node, and no other node changes; the parent now holds x, the loose spot moves up a level, and the walk taken so far grows by the parent with each earlier node holding its successor's old contents |
| Heap.WtLeftHeap.SiftDown | WtLeftHeap.java:246-304 | x moves down along DownWalk, each step to the child ChildToSwap picks, left on a tie; heap order is restored, the elements and links are unchanged; each node of the path now holds the key, value and locator of the next node down, the last one holds x's element, and no other node changes contents |
| Heap.WtLeftHeap.SiftDownStep | WtLeftHeap.java:248-302 | one round of the down loop: ChildToSwap on the current keys picks the child to move into, and then the node and that child exchange key, value and locator with the locators re-pointed and no other node changed; or no child beats x, nothing changes and the loop ends with x settled; either way each node of the walk so far holds its successor's old contents |
| Heap.WtLeftHeap.SwapDown | WtLeftHeap.java:283-302 | one downward swap: the node and the chosen child exchange key, value and locator, each locator is re-pointed at its element's new node, and no other node changes; the child now holds x, is one level deeper, and extends the walk, each earlier node holding its successor's old contents |
| Heap.WtLeftHeap.Exchange | WtLeftHeap.java:217-231 | the two nodes exchange key, value and locator, the locator that denoted a now denotes b and the other one a, no link changes, no third node changes, and the heap's elements are unchanged |
| Heap.WtLeftHeap.ExchangeOnWalk | WtLeftHeap.java:217-231 | one swap between the walk's current node and the next one: Exchange's effect on the store, and the rotation along the walk and the set of visited nodes each grow by one node |
| Heap.WtLeftHeap.Ascend | WtLeftHeap.java:215-235 | the up loop: x ends at a node whose parent is absent or not smaller, with heap order broken only above it; the walk taken is all of UpWalk, each node of it holding its successor's old contents; the elements and links are unchanged and no node off the walk changes |
| Heap.WtLeftHeap.Descend | WtLeftHeap.java:248-304 | the down loop: x ends at a node no child of which beats it, with heap order broken only below it; the walk taken follows ChildToSwap, each node of it holding its successor's old contents; the elements and links are unchanged and no node off the walk changes |
| Heap.WtLeftHeap.PeekKey | WtLeftHeap.java:308-310 | None exactly when the heap is empty; otherwise the root element's key, which bounds every key |
| Heap.WtLeftHeap.PeekValue | WtLeftHeap.java:313-315 | None exactly when the heap is empty; otherwise the value of the root element, whose key bounds every key |
| Heap.InsertBeside | WtLeftHeap.java:132-156 | inserting into one heap leaves a second heap on the same store valid with the same elements, and the two keep disjoint nodes |
| Scenarios.TwoEmpty | WtLeftHeap.java:111-114 | two heaps built on one new store are distinct, valid, empty and hold no element |
| Scenarios.TwoSingletons | WtLeftHeap.java:132-156 | two heaps on one store, each given one element by insert, are valid, own disjoint nodes and got distinct locators |
| Scenarios.InsertTwoAndMerge | WtLeftHeap.java:161-170 | merging those two heaps gives a valid heap of size 2 holding both elements under their own locators |
| Scenarios.NewSingletonHeap | WtLeftHeap.java:132-156 | one insert into a heap on a new store gives a valid one-element heap whose node and locator are both index 0 |
| Scenarios.InsertTie | WtLeftHeap.java:68-73 | after two inserts with equal keys into a new heap, the top key is that key and peekValue gives the value inserted first |
| Scenarios.SecondInsertShape | WtLeftHeap.java:75-77 | inserting key 5 below a root of key 10 fills the root's empty left slot |
| Scenarios.ThirdInsertShape | WtLeftHeap.java:80-88 | the next key 5 is merged into the empty right side and stays there, the two children weighing the same |
| Scenarios.FourthInsertShape | WtLeftHeap.java:68-88 | the fourth key 5 is merged into the right child, which wins the tie and takes it as left child, and the now heavier right child swaps to the left |
| Scenarios.TwoInserts | WtLeftHeap.java:132-156 | the first two inserts of the updateKey scenario give that shape and those keys |
| Scenarios.ThreeInserts | WtLeftHeap.java:132-156 | the first three inserts give that shape, those keys, and the third value in node 2 |
| Scenarios.FourInserts | WtLeftHeap.java:132-156 | all four inserts give that shape, those keys, the third value in node 2, and locator 0 on the root |
| Scenarios.FourInsertsWalk | WtLeftHeap.java:246-302 | lowering the root's key to 0 in that heap sinks it along nodes 0, 2, 3: of two children of key 5 the left one is taken, then the only child |
| Scenarios.UpdateOnWalk | WtLeftHeap.java:202-305 | updateKey whose walk has at least two nodes leaves the updated node holding the old key and value of the walk's second node |
| Scenarios.SinkFourRoot | WtLeftHeap.java:202-305 | updateKey(0, 0) on that heap leaves the root holding key 5 and the third value inserted |
| Scenarios.UpdateKeyTie | WtLeftHeap.java:254-258 | after inserting (10, a), (5, b), (5, c), (5, d) and lowering the first key to 0, peekKey gives 5 and peekValue gives c |

## Left out

- Keys are `int` and comparison is integer comparison, in place of a generic
  `Comparable` key and `compareTo`. Values are an opaque type parameter.
- `Heap.WtLeftHeap.ListHelper`: a token carries the (key, value) pair and
  the subtree weight. The string formatting through `toString` is not modelled.
- `Heap.WtLeftHeap.Extract`: the exception thrown on an empty heap is the
  result `EmptyHeap`. Its type and message are not modelled.
- `Heap.WtLeftHeap.UpdateKey`: the locator must denote an element of this heap,
  a precondition. The source dereferences the locator without a check, and what
  a stale locator does there is not modelled.
- `Heap.WtLeftHeap.Insert`: the throwaway one-node heap that the source builds
  is modelled as the singleton tree it holds.
- Memory is never reclaimed. Nodes of extracted or cleared elements stay in the
  arena, and the extracted root keeps its stale child links, as it does in the
  source until it is collected. Object identity is node and locator index.
- `Heap.WtLeftHeap.constructor` takes the shared `Store`, which stands for the
  JVM heap that all nodes live in.
- `Heap.WtLeftHeap.MergeWith` requires the two heaps to share the store and to
  have no node in common. Two distinct heap objects that share nodes are not
  modelled.
- `Heap.WtLeftHeap.Size`: `size` is an unbounded integer. The 32-bit wrap-around
  of Java's `int` after 2^31 - 1 inserts is not modelled.
- The two phases of `updateKey` are the methods `SiftUp` and `SiftDown`, whose
  loops are `Ascend` and `Descend`. One swap is `Exchange`, used by both phases
  through `ExchangeOnWalk`. `SwapUp`, `SiftDownStep` and `SwapDown` are the
  loop bodies. The source runs the down loop only while its
  flag `endCheck` is 0, and sets it to 1 after the up loop
  (WtLeftHeap.java:240, 248). `Sift` states the same hand-off as an if/else.
- On a tie between two children that both beat the new key, the code picks the
  left child (WtLeftHeap.java:254-258). The model follows the code, and
  `Sift.ChildToSwap` states the rule.
- Running time is not modelled, including the cost of recomputing weights inside `merge`.
