/**
  Whole-tree behaviour over sequences of operations, in the style of the
  library's test driver: inserting many items one after another, removing
  them again, and the concrete rotations of its hand-worked example.
 */
module AvlScenarios {
  import opened AvlTypes
  import opened AvlUtil
  import opened AvlInsert
  import opened AvlRemove
  import opened AvlTraverse
  import opened AvlLevelOrder

  /** The items a sequence names. */
  function Elems(xs: seq<int>): set<int>
  {
    set x | x in xs
  }

  ghost predicate Distinct(xs: seq<int>)
  {
    forall i, j :: 0 <= i < j < |xs| ==> xs[i] != xs[j]
  }

  /** `avl_tree_insert` applied to each item in turn. */
  function InsertAll(t: AvlTree, xs: seq<int>): (r: AvlTree)
    requires Avl(t.root)
    ensures Avl(r.root)
    ensures Items(r.root) == Items(t.root) + Elems(xs)
    decreases |xs|
  {
    if xs == [] then t
    else
      var r := InsertAll(Insert(t, xs[0]).tree, xs[1..]);
      assert Elems(xs) == {xs[0]} + Elems(xs[1..]);
      r
  }

  /** `avl_tree_remove` applied to each item in turn. */
  function RemoveAll(t: AvlTree, xs: seq<int>): (r: AvlTree)
    requires Avl(t.root)
    ensures Avl(r.root)
    ensures Items(r.root) == Items(t.root) - Elems(xs)
    decreases |xs|
  {
    if xs == [] then t
    else
      var r := RemoveAll(Remove(t, xs[0]).tree, xs[1..]);
      assert Elems(xs) == {xs[0]} + Elems(xs[1..]);
      r
  }

  lemma {:induction false} DistinctElems(xs: seq<int>)
    requires Distinct(xs)
    ensures |Elems(xs)| == |xs|
    decreases |xs|
  {
    if xs != [] {
      assert Elems(xs) == {xs[0]} + Elems(xs[1..]);
      assert xs[0] !in Elems(xs[1..]);
      DistinctElems(xs[1..]);
    }
  }

  /**
    The stress loop of the test driver: after inserting `n` distinct items
    into an empty tree it holds `n` items and is AVL at every node; after
    removing the same items in any order it is empty again.
   */
  lemma StressCounts(xs: seq<int>, ys: seq<int>)
    requires Distinct(xs)
    requires Elems(xs) <= Elems(ys)
    ensures Avl(InsertAll(Init(), xs).root)
    ensures NumItems(InsertAll(Init(), xs)) == |xs|
    ensures Avl(RemoveAll(InsertAll(Init(), xs), ys).root)
    ensures NumItems(RemoveAll(InsertAll(Init(), xs), ys)) == 0
  {
    var full := InsertAll(Init(), xs);
    DistinctElems(xs);
    NumItemsCountsItems(full);
    var empty := RemoveAll(full, ys);
    NumItemsCountsItems(empty);
  }

  /** Inserting a new item and removing it again gives back the same in-order sequence and count. */
  lemma InsertThenRemove(t: AvlTree, x: int)
    requires Avl(t.root) && x !in Items(t.root)
    ensures Insert(t, x).code == 1
    ensures Remove(Insert(t, x).tree, x).code == 1
    ensures InOrder(Remove(Insert(t, x).tree, x).tree.root) == InOrder(t.root)
    ensures NumItems(Remove(Insert(t, x).tree, x).tree) == NumItems(t)
  {
    var back := Remove(Insert(t, x).tree, x).tree;
    SameItemsSameInOrder(back.root, t.root);
  }

  /** Inserting an item already present changes nothing, however often it is repeated. */
  lemma DuplicateRejected(t: AvlTree, x: int)
    requires Avl(t.root) && x in Items(t.root)
    ensures Insert(t, x) == Reply(t, 0)
    ensures Insert(Insert(t, x).tree, x) == Reply(t, 0)
  {
  }

  /** On the empty tree nothing is found, nothing is removed and nothing is visited. */
  lemma EmptyTree(x: int)
    ensures Remove(Init(), x) == Reply(Init(), 0)
    ensures NumItems(Init()) == 0 && TreeHeight(Init()) == 0
    ensures PreOrder(Init().root) == [] && InOrder(Init().root) == [] && PostOrder(Init().root) == []
    ensures LevelOrder(Init().root) == []
  {
  }

  /** One recursive frame of an insert that goes right, stated without evaluating it. */
  lemma InsertGoesRight(t: Tree, x: int)
    requires Avl(t) && t.Node? && t.item < x
    ensures InsertNode(t, x).tree == InsertRebalance(t.left, t.item, InsertNode(t.right, x).tree, x)
  {
  }

  /** One recursive frame of an insert that goes left. */
  lemma InsertGoesLeft(t: Tree, x: int)
    requires Avl(t) && t.Node? && x < t.item
    ensures InsertNode(t, x).tree == InsertRebalance(InsertNode(t.left, x).tree, t.item, t.right, x)
  {
  }

  /** A new item makes `avl_tree_insert` return 1 with the tree its recursive insert built. */
  lemma InsertNew(t: Tree, x: int, u: Tree)
    requires Avl(t) && x !in Items(t) && InsertNode(t, x).tree == u
    ensures Insert(AvlTree(t), x) == Reply(AvlTree(u), 1)
  {
  }

  /*
    The shapes of the test driver's worked example, for any items in the
    same relative order: each lemma is one `avl_tree_insert` call.
   */

  lemma FirstInsert(a: int)
    ensures Insert(Init(), a) == Reply(AvlTree(Leaf(a)), 1)
  {
    InsertNew(Nil, a, Leaf(a));
  }

  lemma SecondInsert(a: int, b: int)
    requires a < b
    ensures Insert(AvlTree(Leaf(a)), b) == Reply(AvlTree(Node(Nil, a, Leaf(b), 2)), 1)
  {
    InsertGoesRight(Leaf(a), b);
    InsertNew(Leaf(a), b, Node(Nil, a, Leaf(b), 2));
  }

  /** A Right-Right case on a three-node chain: one left rotation balances it. */
  lemma RightChainRotates(a: int, b: int, c: int)
    requires a < b < c
    ensures InsertRebalance(Nil, a, Node(Nil, b, Leaf(c), 2), c) == Node(Leaf(a), b, Leaf(c), 2)
  {
    assert Avl(Node(Nil, b, Leaf(c), 2));
  }

  /** The Right-Right case at the root: the third ascending item rotates the root left. */
  lemma ThirdInsert(a: int, b: int, c: int)
    requires a < b < c
    ensures Insert(AvlTree(Node(Nil, a, Leaf(b), 2)), c) == Reply(AvlTree(Node(Leaf(a), b, Leaf(c), 2)), 1)
  {
    InsertGoesRight(Node(Nil, a, Leaf(b), 2), c);
    InsertGoesRight(Leaf(b), c);
    assert InsertNode(Leaf(b), c).tree == Node(Nil, b, Leaf(c), 2);
    RightChainRotates(a, b, c);
    InsertNew(Node(Nil, a, Leaf(b), 2), c, Node(Leaf(a), b, Leaf(c), 2));
  }

  /** A fourth ascending item hangs below the right child; the tree stays AVL without rotation. */
  lemma FourthInsert(a: int, b: int, c: int, d: int)
    requires a < b < c < d
    ensures Insert(AvlTree(Node(Leaf(a), b, Leaf(c), 2)), d)
      == Reply(AvlTree(Node(Leaf(a), b, Node(Nil, c, Leaf(d), 2), 3)), 1)
  {
    var t := Node(Leaf(a), b, Leaf(c), 2);
    InsertGoesRight(t, d);
    InsertGoesRight(Leaf(c), d);
    assert InsertNode(Leaf(c), d).tree == Node(Nil, c, Leaf(d), 2);
    assert Avl(Node(Nil, c, Leaf(d), 2));
    InsertNew(t, d, Node(Leaf(a), b, Node(Nil, c, Leaf(d), 2), 3));
  }

  /** The Right-Right case below the root: the fifth ascending item rotates the right child left. */
  lemma FifthInsert(a: int, b: int, c: int, d: int, e: int)
    requires a < b < c < d < e
    ensures Avl(Node(Leaf(a), b, Node(Nil, c, Leaf(d), 2), 3))
    ensures Insert(AvlTree(Node(Leaf(a), b, Node(Nil, c, Leaf(d), 2), 3)), e)
      == Reply(AvlTree(Node(Leaf(a), b, Node(Leaf(c), d, Leaf(e), 2), 3)), 1)
  {
    var t := Node(Leaf(a), b, Node(Nil, c, Leaf(d), 2), 3);
    assert Avl(Node(Nil, c, Leaf(d), 2));
    assert Avl(t);
    InsertGoesRight(t, e);
    InsertGoesRight(Node(Nil, c, Leaf(d), 2), e);
    InsertGoesRight(Leaf(d), e);
    assert InsertNode(Leaf(d), e).tree == Node(Nil, d, Leaf(e), 2);
    RightChainRotates(c, d, e);
    assert Avl(Node(Leaf(c), d, Leaf(e), 2));
    InsertNew(t, e, Node(Leaf(a), b, Node(Leaf(c), d, Leaf(e), 2), 3));
  }

  /** The Right-Left case at the root: an item between the root and its right child's left child. */
  lemma SixthInsert(a: int, b: int, x: int, c: int, d: int, e: int)
    requires a < b < x < c < d < e
    ensures Avl(Node(Leaf(a), b, Node(Leaf(c), d, Leaf(e), 2), 3))
    ensures Insert(AvlTree(Node(Leaf(a), b, Node(Leaf(c), d, Leaf(e), 2), 3)), x)
      == Reply(AvlTree(Node(Node(Leaf(a), b, Leaf(x), 2), c, Node(Nil, d, Leaf(e), 2), 3)), 1)
  {
    var right := Node(Leaf(c), d, Leaf(e), 2);
    var t := Node(Leaf(a), b, right, 3);
    assert Avl(right);
    assert Avl(t);
    InsertGoesRight(t, x);
    InsertGoesLeft(right, x);
    InsertGoesLeft(Leaf(c), x);
    assert InsertNode(Leaf(c), x).tree == Node(Leaf(x), c, Nil, 2);
    var grown := Node(Node(Leaf(x), c, Nil, 2), d, Leaf(e), 3);
    assert Avl(Node(Leaf(x), c, Nil, 2));
    assert InsertNode(right, x).tree == grown;
    assert RotateRight(grown) == Node(Leaf(x), c, Node(Nil, d, Leaf(e), 2), 3);
    InsertNew(t, x, Node(Node(Leaf(a), b, Leaf(x), 2), c, Node(Nil, d, Leaf(e), 2), 3));
  }

  /**
    The hand-worked example of the test driver: inserting 10, 20, 30, 40,
    50, 25 one after another into an empty tree ends in root 30 over
    20 (10, 25) and 40 (-, 50), with a rotation at the third, fifth and
    sixth insertion.
   */
  lemma RotationExample()
    ensures Insert(Init(), 10) == Reply(AvlTree(Leaf(10)), 1)
    ensures Insert(AvlTree(Leaf(10)), 20) == Reply(AvlTree(Node(Nil, 10, Leaf(20), 2)), 1)
    ensures Insert(AvlTree(Node(Nil, 10, Leaf(20), 2)), 30)
      == Reply(AvlTree(Node(Leaf(10), 20, Leaf(30), 2)), 1)
    ensures Insert(AvlTree(Node(Leaf(10), 20, Leaf(30), 2)), 40)
      == Reply(AvlTree(Node(Leaf(10), 20, Node(Nil, 30, Leaf(40), 2), 3)), 1)
    ensures Insert(AvlTree(Node(Leaf(10), 20, Node(Nil, 30, Leaf(40), 2), 3)), 50)
      == Reply(AvlTree(Node(Leaf(10), 20, Node(Leaf(30), 40, Leaf(50), 2), 3)), 1)
    ensures Insert(AvlTree(Node(Leaf(10), 20, Node(Leaf(30), 40, Leaf(50), 2), 3)), 25)
      == Reply(AvlTree(Node(Node(Leaf(10), 20, Leaf(25), 2), 30, Node(Nil, 40, Leaf(50), 2), 3)), 1)
  {
    FirstInsert(10);
    SecondInsert(10, 20);
    ThirdInsert(10, 20, 30);
    FourthInsert(10, 20, 30, 40);
    FifthInsert(10, 20, 30, 40, 50);
    SixthInsert(10, 20, 25, 30, 40, 50);
  }

  /** Three items inserted middle, high, low end up balanced without any rotation. */
  lemma ThreeBalanced(a: int, b: int, c: int)
    requires a < b < c
    ensures Avl(Node(Nil, b, Leaf(c), 2))
    ensures Insert(AvlTree(Node(Nil, b, Leaf(c), 2)), a) == Reply(AvlTree(Node(Leaf(a), b, Leaf(c), 2)), 1)
  {
    var t := Node(Nil, b, Leaf(c), 2);
    assert Avl(t);
    InsertGoesLeft(t, a);
    InsertNew(t, a, Node(Leaf(a), b, Leaf(c), 2));
  }

  /** The three depth-first traversals of a three-node tree. */
  lemma ThreePreOrder(a: int, b: int, c: int)
    ensures PreOrder(Node(Leaf(a), b, Leaf(c), 2)) == [b, a, c]
  {
    LeafTraversals(a);
    LeafTraversals(c);
  }

  lemma ThreeInOrder(a: int, b: int, c: int)
    ensures InOrder(Node(Leaf(a), b, Leaf(c), 2)) == [a, b, c]
  {
    LeafTraversals(a);
    LeafTraversals(c);
  }

  lemma ThreePostOrder(a: int, b: int, c: int)
    ensures PostOrder(Node(Leaf(a), b, Leaf(c), 2)) == [a, c, b]
  {
    LeafTraversals(a);
    LeafTraversals(c);
  }

  lemma LeafTraversals(x: int)
    ensures PreOrder(Leaf(x)) == InOrder(Leaf(x)) == PostOrder(Leaf(x)) == [x]
  {
    assert PreOrder(Leaf(x)) == [x];
    assert InOrder(Leaf(x)) == [x];
  }

  /** The pre-order pass of level order fills the queue of depth 0 with the root and that of depth 1 with its children. */
  lemma ThreeQueues(a: int, b: int, c: int)
    ensures RealHeight(Node(Leaf(a), b, Leaf(c), 2)) == 2
    ensures Distribute(Node(Leaf(a), b, Leaf(c), 2), 0, [[], []]) == [[b], [a, c]]
  {
    var t := Node(Leaf(a), b, Leaf(c), 2);
    var empty: seq<seq<int>> := [[], []];
    assert RealHeight(Leaf(a)) == 1 && RealHeight(Leaf(c)) == 1;
    var q0, q1, q2 := [[b], []], [[b], [a]], [[b], [a, c]];
    assert empty[0] + [b] == [b] && q0[1] + [a] == [a] && q1[1] + [c] == [a, c];
    assert empty[0 := empty[0] + [b]] == q0;
    assert q0[1 := q0[1] + [a]] == q1;
    assert q1[1 := q1[1] + [c]] == q2;
    assert Distribute(Leaf(a), 1, q0) == q1;
    assert Distribute(Leaf(c), 1, q1) == q2;
  }

  /** Level order of a three-node tree: the root at depth 0, then its children left to right at depth 1. */
  lemma ThreeLevelOrder(a: int, b: int, c: int)
    ensures LevelOrder(Node(Leaf(a), b, Leaf(c), 2)) == [Visit(b, 0), Visit(a, 1), Visit(c, 1)]
  {
    ThreeQueues(a, b, c);
    var empty: seq<seq<int>> := [[], []];
    assert seq(2, _ => []) == empty;
    assert Tag([b], 0) == [Visit(b, 0)] && Tag([a, c], 1) == [Visit(a, 1), Visit(c, 1)];
    assert Drain([[b], [a, c]], 2) == [];
    assert Drain([[b], [a, c]], 1) == [Visit(a, 1), Visit(c, 1)];
  }

  /**
    The traversal example: 1, 2, 0 inserted into an empty tree give pre-order
    1 0 2, in-order 0 1 2, post-order 0 2 1 and level order 1 0 2 (1 at
    level 0, then 0 and 2 at level 1).
   */
  lemma TraversalExample()
    ensures Insert(Init(), 1).tree == AvlTree(Leaf(1))
    ensures Insert(AvlTree(Leaf(1)), 2).tree == AvlTree(Node(Nil, 1, Leaf(2), 2))
    ensures Insert(AvlTree(Node(Nil, 1, Leaf(2), 2)), 0).tree == AvlTree(Node(Leaf(0), 1, Leaf(2), 2))
    ensures PreOrder(Node(Leaf(0), 1, Leaf(2), 2)) == [1, 0, 2]
    ensures InOrder(Node(Leaf(0), 1, Leaf(2), 2)) == [0, 1, 2]
    ensures PostOrder(Node(Leaf(0), 1, Leaf(2), 2)) == [0, 2, 1]
    ensures LevelOrder(Node(Leaf(0), 1, Leaf(2), 2)) == [Visit(1, 0), Visit(0, 1), Visit(2, 1)]
  {
    FirstInsert(1);
    SecondInsert(1, 2);
    ThreeBalanced(0, 1, 2);
    ThreePreOrder(0, 1, 2);
    ThreeInOrder(0, 1, 2);
    ThreePostOrder(0, 1, 2);
    ThreeLevelOrder(0, 1, 2);
  }
}
