# AVL tree engine, modelled in Dafny

This project models the balancing engine of a small generic AVL tree library written in C:
- the node and tree shapes (`avl.h`);
- the height, balance and rotation helpers (`avl_util.c`, repeated inline in `avl_util.h`, together with the in-order successor helper);
- recursive insertion (`avl_insert.c`) and recursive removal (`avl_remove.c`);
- the read-only consumers in `avl.c`: init, item count, find, height, the pre-, in- and post-order traversals, level order and the release order of destroy.

Each node is an immutable `Tree` value that carries its cached height. Insert and remove are pure functions from tree to tree. Every tree the library hands out keeps one invariant, the ghost predicate `Avl`:
- binary-search order;
- every cached height equals one plus the larger height of the node's children;
- the balance at every node is in [-1, 1].

Items are `int` and the comparator is `<`.

Modules, in dependency order:
- `AvlTypes` (types.dfy): the datatypes, `Height`, `Balance`, the invariants and the facts about in-order sequences.
- `AvlUtil` (util.dfy): the rotations, the successor helper, and the four repair lemmas the rebalancing code relies on.
- `AvlInsert` (insert.dfy): `avl_tree_insert_node` and `avl_tree_insert`.
- `AvlRemove` (remove.dfy): `avl_tree_remove_node` and `avl_tree_remove`.
- `AvlTraverse` (traverse.dfy): init, count, height, find, the depth-first traversals, and destroy's release order.
- `AvlLevelOrder` (level_order.dfy): level order.
  - It has two passes: a pre-order pass that appends each node to the queue of its depth, then a drain of the queues in depth order.
  - It is proved against a reference walk that tags each node with its depth.
- `AvlScenarios` (scenarios.dfy): worked examples and whole-sequence properties.
  - The test program's rotation example: insert 10, 20, 30, 40, 50, 25.
  - The test program's stress test: insert distinct items, then remove them all.
  - A three-item traversal example (insert 1, 2, 0), worked through every traversal.

## Model

| member | source | states |
|---|---|---|
| AvlTypes.Make | avl_insert.c:37-38 | the frame's height recompute: the new node keeps its children and item, is strictly higher than both children and exactly one higher than the higher of them, and its heights are correct when the children's are (the same recompute is avl_remove.c:73-74) |
| AvlTypes.Leaf | avl_insert.c:23-26 | the node `avl_tree_insert_node` links in at an empty position, which its `Nil` case returns: an AVL tree of height 1 holding just that item |
| AvlTypes.Size | avl.c:30-36 | the node count is 0 exactly for the empty tree; `BstSize` ties it to the number of distinct items |
| AvlTypes.HeightNonNegative | avl_util.c:10-15 | `Height`, the null-safe height helper: with correct cached heights it is never negative, and it is positive exactly on nodes, so the absent node is the only one of height 0 |
| AvlTypes.CachedHeightIsReal | avl_util.c:10-23 | `Height` and `Balance`: with correct cached heights, `Height` equals the height recomputed from the shape, and `Balance` is the left child's real height minus the right child's |
| AvlTypes.AvlBalanceInRange | avl_util.h:43-56 | `Height` and `Balance` as the header's inline helpers: on an AVL tree `Height` gives the real height and `Balance` gives a value in [-1, 1] |
| AvlTypes.InOrder | avl.c:92-112 | the in-order visit sequence has one entry per node and contains exactly the stored items |
| AvlTypes.AscendingParts | avl.c:92-112 | a strictly ascending `a + [x] + b` splits into ascending parts with everything in `a` below `x` and everything in `b` above it |
| AvlTypes.AscendingJoin | avl.c:92-112 | the converse: ascending parts on the correct sides of `x` join into a strictly ascending sequence |
| AvlTypes.AscendingSplit | avl.c:92-112 | the two directions together as one equivalence |
| AvlTypes.BstIffAscending | avl.c:92-112 | a tree is in binary-search order if and only if its in-order sequence is strictly ascending |
| AvlTypes.BstSize | avl.c:30-41 | in a search tree the node count equals the number of distinct items |
| AvlTypes.HeadIsLeast | avl.c:92-112 | the first element of a strictly ascending sequence is its least element |
| AvlTypes.AscendingUnique | avl.c:92-112 | two strictly ascending sequences with the same elements are equal |
| AvlTypes.SameItemsSameInOrder | avl.c:92-112 | two search trees holding the same items have the same in-order sequence, whatever their shapes |
| AvlUtil.RotateRight | avl_util.c:25-51 | promotes the left child and demotes the root to its right child, which adopts the old left-right subtree; nothing else moves; keeps the in-order sequence, the items and the count; keeps search order in both directions; gives correct heights everywhere when the untouched subtrees had them |
| AvlUtil.RotateLeft | avl_util.c:53-79 | the mirror of the right rotation, with the same guarantees |
| AvlUtil.RotationsInverse | avl_util.h:58-112 | on a height-correct tree a left rotation exactly undoes a right rotation |
| AvlUtil.Leftmost | avl_util.h:118-121 | the leftmost node has no left child and holds an item of the subtree; in a search tree that item is no larger than any other item there |
| AvlUtil.Successor | avl_util.h:114-122 | needs a node with a right child; returns a node of the right subtree with no left child; in a search tree it holds the right subtree's least item, which is the smallest item of the whole subtree greater than the node's item |
| AvlUtil.FindSuccessor | avl_remove.c:15-21 | the `while (successor->left)` walk ends at the same node as `Successor`, a node of the right subtree with no left child; in a search tree it holds the least item greater than the node's item |
| AvlUtil.SingleRightRepairs | avl_insert.c:56-60 | a node left-heavy by two whose left child is not right-heavy is AVL after one right rotation; its height is the left child's height, plus one when the left child was even |
| AvlUtil.DoubleRightRepairs | avl_insert.c:97-103 | a node left-heavy by two whose left child leans right is AVL after a left rotation of the child and then a right rotation of the node, and has the left child's height |
| AvlUtil.SingleLeftRepairs | avl_insert.c:76-80 | the mirror of the single right repair |
| AvlUtil.DoubleLeftRepairs | avl_insert.c:119-125 | the mirror of the double right repair (the Right-Left case) |
| AvlInsert.InsertRebalance | avl_insert.c:37-127 | for the frames insert can produce, the result is AVL, holds the same items and has a recomputed height. The case is chosen from the new item: below the left child's item gives a single right rotation, above it a left-right rotation, and the mirrors on the right. A node within balance is kept as it is |
| AvlInsert.InsertLeftFrame | avl_insert.c:28-38 | when the left recursive call kept its promise, the node's frame gets a subtree pair that is at most two apart, and the frame keeps the same promise |
| AvlInsert.InsertRightFrame | avl_insert.c:28-38 | the mirror, for the right recursive call |
| AvlInsert.InsertNode | avl_insert.c:15-128 | on an AVL tree: the result is AVL; the items become old ∪ {x}; the flag is set exactly when x was absent; an equal item leaves the subtree unchanged; the height grows by at most one, and when it grows to a height of two or more the new root leans towards x |
| AvlInsert.Insert | avl_insert.c:130-135 | returns 0 exactly when an equal item was already present, and then the tree is unchanged; otherwise returns 1 with one more node; the result is AVL and holds old ∪ {x} |
| AvlInsert.InsertKeepsOrder | avl_insert.c:28-33 | after an insert the in-order sequence is still strictly ascending and holds exactly the old items and x |
| AvlRemove.RemoveRebalance | avl_remove.c:69-102 | for the frames remove can produce, the result is AVL, holds the same items, and has a height within one of the recomputed height. The case is chosen from the heavy child's balance: a left child with balance ≥ 0 gives a single right rotation and one leaning right gives a left-right rotation; the mirror cases switch at balance ≤ 0. A node within balance is kept |
| AvlRemove.RemoveLeftFrame | avl_remove.c:36-37 | when the left recursive call kept its promise, the frame can rebalance and keeps the same promise |
| AvlRemove.RemoveRightFrame | avl_remove.c:38-39 | the mirror, for the right recursive call |
| AvlRemove.RemoveSuccessorFrame | avl_remove.c:56-65 | a node with two children takes the least item of its right subtree, which is then removed from that subtree; the result has the old items minus the removed one and is still in search order |
| AvlRemove.RemoveSpliceFrame | avl_remove.c:42-54 | a matched node with one child is replaced by the child's record; the frame's usual rebalance keeps the promise |
| AvlRemove.RemoveLeafFrame | avl_remove.c:46-49 | a matched leaf is replaced by the empty subtree |
| AvlRemove.RemoveNode | avl_remove.c:23-103 | on an AVL tree: the result is AVL; the items become old − {x}; the flag is set exactly when x was present; an absent item leaves the tree unchanged; the height drops by at most one |
| AvlRemove.RemoveSplicesChild | avl_remove.c:42-51 | removing the item of a node with at most one child leaves exactly that child's subtree, or the empty tree for a leaf |
| AvlRemove.Remove | avl_remove.c:105-110 | returns 1 exactly when an equal item was present, and then there is one node fewer; returns 0 with the tree unchanged otherwise; the result is AVL and holds old − {x} |
| AvlTraverse.Init | avl.c:3-12 | the new tree has no root, so it is AVL and empty |
| AvlTraverse.NumItems | avl.c:30-41 | the count is 0 exactly for the empty tree, and equals the lengths of the in-order, pre-order and post-order traversals |
| AvlTraverse.NumItemsCountsItems | avl.c:30-41 | on a search tree the count is the number of distinct items |
| AvlTraverse.TreeHeight | avl.c:214-219 | the empty tree has height 0 |
| AvlTraverse.TreeHeightIsReal | avl.c:214-219 | with correct cached heights the reported height is the recomputed one, and it is at least 1 for a non-empty tree |
| AvlTraverse.Find | avl.c:43-69 | returns 1 and hands the visitor x only when x is stored; returns 0 without a visit otherwise; on a search tree, returns 1 if and only if x is stored |
| AvlTraverse.PreOrder | avl.c:71-90 | visits each node exactly once (the same multiset as in-order, one entry per node), and visits the root first |
| AvlTraverse.PostOrder | avl.c:114-134 | visits each node exactly once, and visits the root last |
| AvlTraverse.InOrderSorted | avl.c:92-112 | the in-order traversal is strictly ascending exactly for search trees |
| AvlTraverse.Nodes | avl.c:14-23 | every element of the node set is a node |
| AvlTraverse.DestroyOrder | avl.c:14-28 | destroy releases one node per node of the tree, and releases nothing but nodes |
| AvlTraverse.DestroyReleasesEveryNode | avl.c:14-23 | a subtree is released if and only if it is a node of the tree |
| AvlTraverse.DestroyFollowsPostOrder | avl.c:14-23 | the release order is the post-order traversal, position by position |
| AvlTraverse.DestroyChildrenFirst | avl.c:19-22 | no node is released before every node below it has been released |
| AvlLevelOrder.TaggedShape | avl.h:53-55 | the depth-tagged reference walk has one visit per node, and every depth lies below the subtree's height |
| AvlLevelOrder.TaggedFollowsPreOrder | avl.c:162-174 | the reference walk lists the items in pre-order, the order the enqueue pass uses |
| AvlLevelOrder.AtLevelConcat | avl.c:162-174 | selecting one depth distributes over concatenation |
| AvlLevelOrder.AtLevelAbsent | avl.c:162-174 | a depth nobody has contributes nothing |
| AvlLevelOrder.TagAtLevel | avl.c:190-209 | draining a queue tags each of its entries with the queue's depth: the drained visits show the queue, in order, at that depth and nothing at any other |
| AvlLevelOrder.Distribute | avl.c:162-174 | the enqueue pass keeps the number of queues |
| AvlLevelOrder.DistributeFillsLevels | avl.c:162-174 | after the enqueue pass, queue k holds what it held before, followed by the nodes of depth k in pre-order |
| AvlLevelOrder.TaggedNodeAtLevel | avl.c:162-174 | at any depth, a node's walk is the node (if at that depth), then its left subtree's walk, then its right subtree's |
| AvlLevelOrder.Drain | avl.c:190-209 | draining from queue i produces only visits whose depths are between i and the number of queues |
| AvlLevelOrder.DrainSorted | avl.c:190-209 | the drained depths never decrease |
| AvlLevelOrder.DrainAtLevel | avl.c:190-209 | at depth k the drain yields exactly queue k, in queue order |
| AvlLevelOrder.DrainBag | avl.c:190-209 | the drain yields exactly the visits the queues hold |
| AvlLevelOrder.QueueBagAppend | avl.c:136-160 | appending an item to queue k adds one visit at depth k |
| AvlLevelOrder.QueueBagEmpty | avl.c:176-189 | freshly allocated empty queues hold no visits |
| AvlLevelOrder.DistributeBag | avl.c:162-174 | the enqueue pass adds exactly the reference walk's visits |
| AvlLevelOrder.LevelOrder | avl.c:176-212 | the empty tree yields no visits, and every depth is below the root's cached height |
| AvlLevelOrder.LevelOrderVisitsEachNodeOnce | avl.h:53-55 | every node is visited exactly once, tagged with its depth |
| AvlLevelOrder.LevelOrderByLevel | avl.c:176-212 | depths never decrease, and within one depth the nodes come in pre-order (left before right) |
| AvlScenarios.InsertAll | main.c:252-256 | inserting items one by one keeps the tree AVL and adds exactly those items |
| AvlScenarios.RemoveAll | main.c:262-266 | removing items one by one keeps the tree AVL and takes out exactly those items |
| AvlScenarios.DistinctElems | main.c:252-256 | a list of distinct items names as many items as it has entries |
| AvlScenarios.StressCounts | main.c:245-267 | inserting n distinct items gives an AVL tree of n nodes; removing them all again leaves an AVL tree with none |
| AvlScenarios.InsertThenRemove | avl.h:27-31 | inserting a new item and then removing it both return 1, and give back the original in-order sequence and count |
| AvlScenarios.DuplicateRejected | avl_insert.c:34-35 | inserting an item that is already present returns 0 and changes nothing, however often it is repeated |
| AvlScenarios.EmptyTree | avl.c:185-188 | on the empty tree level order visits nothing, and neither do the pre-order, in-order and post-order traversals; the same lemma also states that remove returns 0 (the empty case of avl_remove.c:31-32), and that the count (avl.c:30-41) and height (avl.c:216-219) are 0 |
| AvlScenarios.InsertGoesRight | avl_insert.c:32-33 | a one-step unfolding of `InsertNode` that the worked examples use: an item above the node's item is inserted into the right subtree, and the frame rebalances the result |
| AvlScenarios.InsertGoesLeft | avl_insert.c:30-31 | a one-step unfolding of `InsertNode` that the worked examples use: an item below the node's item is inserted into the left subtree, and the frame rebalances the result |
| AvlScenarios.InsertNew | avl_insert.c:130-135 | a one-step unfolding of `Insert` that the worked examples use: for a new item the wrapper returns 1 with the tree its recursive insert built |
| AvlScenarios.FirstInsert | main.c:67-68 | the first insert into an empty tree returns 1 and gives a single leaf |
| AvlScenarios.SecondInsert | main.c:70-72 | a larger second item becomes the right child, with no rotation |
| AvlScenarios.RightChainRotates | avl_insert.c:76-80 | a right-right chain of three becomes balanced after one left rotation, with the middle item at the root |
| AvlScenarios.ThirdInsert | main.c:84-87 | a third ascending item triggers the Right-Right case at the root |
| AvlScenarios.FourthInsert | main.c:98-102 | a fourth ascending item hangs below the right child, with no rotation |
| AvlScenarios.FifthInsert | main.c:116-121 | a fifth ascending item triggers the Right-Right case at the right child |
| AvlScenarios.SixthInsert | main.c:136-142 | an item between the root and the right child's left item triggers the Right-Left case at the root |
| AvlScenarios.RotationExample | main.c:57-142 | inserting 10, 20, 30, 40, 50 and then 25 gives exactly the shapes the test program asserts after each step |
| AvlScenarios.ThreeBalanced | avl_insert.c:127 | inserting the middle, high and then low item needs no rotation |
| AvlScenarios.ThreePreOrder | avl.c:71-90 | a balanced three-node tree is visited root, left, right |
| AvlScenarios.ThreeInOrder | avl.c:92-112 | a balanced three-node tree is visited left, root, right |
| AvlScenarios.ThreePostOrder | avl.c:114-134 | a balanced three-node tree is visited left, right, root |
| AvlScenarios.LeafTraversals | avl.c:71-134 | all three depth-first traversals of a leaf visit just its item |
| AvlScenarios.ThreeQueues | avl.c:162-174 | the enqueue pass puts the root in the depth-0 queue and both children, left first, in the depth-1 queue |
| AvlScenarios.ThreeLevelOrder | avl.c:176-212 | level order of a three-node tree visits the root at depth 0, then the left and right children at depth 1 |
| AvlScenarios.TraversalExample | avl.c:71-212 | inserting 1, 2, 0 gives pre-order 1 0 2, in-order 0 1 2, post-order 0 2 1, and level order 1 (depth 0), then 0 and 2 (depth 1) |

## Left out

- Allocation and the release hooks (`allocate_node`, `free_node`, `malloc`/`calloc`): node creation is total.
  - The C insert sets its inserted flag before calling the allocator and never checks for NULL (avl_insert.c:23-25), so a failed allocation would still report success.
  - That path is not modelled.
  - The model assumes the allocation hook returns a node with no children and height 1. `avl_tree_insert_node` never sets those fields itself (avl_insert.c:23-25); the test program's allocator does (main.c:21-31).
- Visitor callbacks and their `void *context`: traversals, find and level order return sequences or an optional item instead.
- The comparator function pointer: items are `int` and the order is `<`. The test program's subtraction comparator, which can overflow (main.c:38-43), is not modelled.
- Integer widths: `int32_t` heights and the `uint32_t` count are unbounded `int` and `nat`, so overflow is not modelled.
- Pointers: node identity, aliasing and in-place link updates are not modelled.
  - The splice `*node = *trash` (avl_remove.c:51) becomes "the frame continues with the child's subtree".
  - Trees are values, so a rotation returns a new subtree instead of relinking nodes.
- The linked per-level queues of level order, and their allocation (avl.c:136-160, 190-211), become a sequence of sequences indexed by depth.
- Destroy only releases nodes: it never sets `t->root` back to NULL (avl.c:25-28). The model follows the code and describes destroy only as the order in which nodes are released.
- AvlInsert.Insert, AvlInsert.InsertNode, AvlRemove.Remove and AvlRemove.RemoveNode require an AVL tree. The C code relies on this and does not check it.
  - Without it, the rotation cases would dereference a missing grandchild. For example, the Left-Right case needs `node->left->right`.
  - Every tree built from `avl_tree_init` through insert and remove meets the requirement: AvlTraverse.Init, AvlInsert.Insert and AvlRemove.Remove each ensure `Avl` of the tree they produce.
- AvlUtil.Successor requires a node with a right child. The header's `avl_tree_assert` macro, which would check this, expands to nothing (avl_util.h:23-34).
- `avl_util.h` repeats the height, balance and rotation helpers of `avl_util.c` line for line, so they are modelled once.
- The test program's `is_avl_tree` checks the balance only at the root (main.c:210-228). The model's `Avl` invariant is stronger: it requires balance at every node, order and correct heights.
- The random order of the stress test (`rand`, the randomizer) is replaced by arbitrary sequences of distinct items (AvlScenarios.StressCounts). The repetition counts and the printing are left out.
