/**
  avl_insert.c: recursive insertion with duplicate rejection, height
  recomputation on unwind and the four rotation cases, chosen by comparing
  the new item with the heavy child's item.
 */
module AvlInsert {
  import opened AvlTypes
  import opened AvlUtil

  /**
    After inserting `x` made subtree `t` grow to a height of at least two,
    its root is not `x` and leans by exactly one towards the side `x` went.
    This is what lets the rebalancing frame pick its case from the item alone.
   */
  ghost predicate LeansToward(t: Tree, x: int)
  {
    && t.Node?
    && t.item != x
    && (x < t.item ==> Balance(t) == 1)
    && (x > t.item ==> Balance(t) == -1)
  }

  /**
    One unwind frame of `avl_tree_insert_node` after the recursive call:
    recompute the height, then apply the Left-Left, Right-Right, Left-Right
    or Right-Left repair, checked in that order; otherwise keep the node.
   */
  function InsertRebalance(l: Tree, y: int, r: Tree, x: int): (t: Tree)
    requires Avl(l) && Avl(r) && Ordered(l, y, r)
    requires -2 <= Height(l) - Height(r) <= 2
    requires Height(l) - Height(r) == 2 ==> LeansToward(l, x)
    requires Height(r) - Height(l) == 2 ==> LeansToward(r, x)
    ensures Avl(t)
    ensures Items(t) == Items(l) + {y} + Items(r)
    ensures -1 <= Height(l) - Height(r) <= 1 ==> t == Make(l, y, r)
    ensures Height(l) - Height(r) == 2 ==> Height(t) == Height(l)
    ensures Height(r) - Height(l) == 2 ==> Height(t) == Height(r)
    ensures Height(l) - Height(r) == 2 && x < l.item ==> t.item == l.item && t.right.Node? && t.right.item == y
    ensures Height(l) - Height(r) == 2 && x > l.item ==>
      l.right.Node? && t.item == l.right.item && t.left.Node? && t.left.item == l.item && t.right.Node? && t.right.item == y
    ensures Height(r) - Height(l) == 2 && x > r.item ==> t.item == r.item && t.left.Node? && t.left.item == y
    ensures Height(r) - Height(l) == 2 && x < r.item ==>
      r.left.Node? && t.item == r.left.item && t.right.Node? && t.right.item == r.item && t.left.Node? && t.left.item == y
  {
    var n := Make(l, y, r);
    var balance := Balance(n);
    if balance > 1 && x < l.item then
      SingleRightRepairs(l, y, r);
      RotateRight(n)
    else if balance < -1 && x > r.item then
      SingleLeftRepairs(l, y, r);
      RotateLeft(n)
    else if balance > 1 && x > l.item then
      HeightNonNegative(l.left);
      DoubleRightRepairs(l, y, r, n.height);
      RotateRight(Node(RotateLeft(l), y, r, n.height))
    else if balance < -1 && x < r.item then
      HeightNonNegative(r.right);
      DoubleLeftRepairs(l, y, r, n.height);
      RotateLeft(Node(l, y, RotateRight(r), n.height))
    else
      n
  }

  /** What inserting `x` into the AVL tree `t` promises about the frame's result `r`. */
  ghost predicate InsertPost(t: Tree, x: int, r: Step)
  {
    && Avl(r.tree)
    && Items(r.tree) == Items(t) + {x}
    && (r.changed <==> x !in Items(t))
    && (!r.changed ==> r.tree == t)
    && Height(t) <= Height(r.tree) <= Height(t) + 1
    && (Height(r.tree) == Height(t) + 1 && Height(r.tree) >= 2 ==> LeansToward(r.tree, x))
  }

  /** The frame that recursed to the left hands `InsertRebalance` what it needs and keeps `InsertPost`. */
  lemma InsertLeftFrame(l: Tree, y: int, rt: Tree, h: int, x: int, s: Step)
    requires Avl(Node(l, y, rt, h)) && x < y
    requires InsertPost(l, x, s)
    ensures Avl(s.tree) && Avl(rt) && Ordered(s.tree, y, rt)
    ensures -1 <= Height(s.tree) - Height(rt) <= 2
    ensures Height(s.tree) - Height(rt) == 2 ==> LeansToward(s.tree, x)
    ensures InsertPost(Node(l, y, rt, h), x, Step(InsertRebalance(s.tree, y, rt, x), s.changed))
  {
    HeightNonNegative(rt);
  }

  /** Mirror of `InsertLeftFrame`. */
  lemma InsertRightFrame(l: Tree, y: int, rt: Tree, h: int, x: int, s: Step)
    requires Avl(Node(l, y, rt, h)) && y < x
    requires InsertPost(rt, x, s)
    ensures Avl(l) && Avl(s.tree) && Ordered(l, y, s.tree)
    ensures -1 <= Height(s.tree) - Height(l) <= 2
    ensures Height(s.tree) - Height(l) == 2 ==> LeansToward(s.tree, x)
    ensures InsertPost(Node(l, y, rt, h), x, Step(InsertRebalance(l, y, s.tree, x), s.changed))
  {
    HeightNonNegative(l);
  }

  /**
    `avl_tree_insert_node`: descend by comparison, reject an equal item by
    returning the subtree as it is, create a height-1 leaf at the empty
    position, and rebalance every frame on the way back.
   */
  function InsertNode(t: Tree, x: int): (r: Step)
    requires Avl(t)
    ensures Avl(r.tree)
    ensures Items(r.tree) == Items(t) + {x}
    ensures r.changed <==> x !in Items(t)
    ensures !r.changed ==> r.tree == t
    ensures Height(t) <= Height(r.tree) <= Height(t) + 1
    ensures Height(r.tree) == Height(t) + 1 && Height(r.tree) >= 2 ==> LeansToward(r.tree, x)
    decreases t
  {
    match t
    case Nil => Step(Leaf(x), true)
    case Node(l, y, rt, h) =>
      if x < y then
        var s := InsertNode(l, x);
        InsertLeftFrame(l, y, rt, h, x, s);
        Step(InsertRebalance(s.tree, y, rt, x), s.changed)
      else if x > y then
        var s := InsertNode(rt, x);
        InsertRightFrame(l, y, rt, h, x, s);
        Step(InsertRebalance(l, y, s.tree, x), s.changed)
      else
        Step(t, false)
  }

  /** `avl_tree_insert`: 1 when a new item was linked in, 0 when an equal one was already present. */
  function Insert(t: AvlTree, x: int): (r: Reply)
    requires Avl(t.root)
    ensures Avl(r.tree.root)
    ensures r.code == 0 || r.code == 1
    ensures r.code == 0 <==> x in Items(t.root)
    ensures r.code == 0 ==> r.tree == t
    ensures Items(r.tree.root) == Items(t.root) + {x}
    ensures Size(r.tree.root) == Size(t.root) + r.code
  {
    var s := InsertNode(t.root, x);
    BstSize(t.root);
    BstSize(s.tree);
    Reply(AvlTree(s.tree), if s.changed then 1 else 0)
  }

  /** A successful insert keeps the in-order sequence strictly ascending and adds exactly `x` to it. */
  lemma InsertKeepsOrder(t: AvlTree, x: int)
    requires Avl(t.root)
    ensures Ascending(InOrder(Insert(t, x).tree.root))
    ensures forall z :: z in InOrder(Insert(t, x).tree.root) <==> z == x || z in InOrder(t.root)
  {
    BstIffAscending(Insert(t, x).tree.root);
  }
}
