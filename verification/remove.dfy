/**
  avl_remove.c: recursive removal. A matched node with at most one child is
  spliced out; a matched node with two children takes its successor's item
  and the successor is removed from the right subtree instead. Every
  surviving frame recomputes its height and rebalances, choosing single or
  double rotation from the heavy child's own balance.
 */
module AvlRemove {
  import opened AvlTypes
  import opened AvlUtil

  /**
    One unwind frame of `avl_tree_remove_node`: recompute the height, then
    repair a left-heavy node (single rotation when the left child is not
    right-heavy, else left-right) or a right-heavy one (the mirror).
   */
  function RemoveRebalance(l: Tree, y: int, r: Tree): (t: Tree)
    requires Avl(l) && Avl(r) && Ordered(l, y, r)
    requires -2 <= Height(l) - Height(r) <= 2
    ensures Avl(t)
    ensures Items(t) == Items(l) + {y} + Items(r)
    ensures -1 <= Height(l) - Height(r) <= 1 ==> t == Make(l, y, r)
    ensures Height(l) <= Height(t) && Height(r) <= Height(t)
    ensures Height(t) <= Height(l) + 1 || Height(t) <= Height(r) + 1
    ensures Height(l) - Height(r) == 2 ==> l.Node?
    ensures Height(l) - Height(r) == 2 && Balance(l) >= 0 ==>
      t.item == l.item && t.right.Node? && t.right.item == y
    ensures Height(l) - Height(r) == 2 && Balance(l) < 0 ==>
      l.right.Node? && t.item == l.right.item && t.left.Node? && t.left.item == l.item && t.right.Node? && t.right.item == y
    ensures Height(r) - Height(l) == 2 ==> r.Node?
    ensures Height(r) - Height(l) == 2 && Balance(r) <= 0 ==>
      t.item == r.item && t.left.Node? && t.left.item == y
    ensures Height(r) - Height(l) == 2 && Balance(r) > 0 ==>
      r.left.Node? && t.item == r.left.item && t.right.Node? && t.right.item == r.item && t.left.Node? && t.left.item == y
  {
    HeightNonNegative(l);
    HeightNonNegative(r);
    var n := Make(l, y, r);
    var balance := Balance(n);
    if balance > 1 then
      var leftBalance := Balance(l);
      if leftBalance >= 0 then
        SingleRightRepairs(l, y, r);
        RotateRight(n)
      else
        HeightNonNegative(l.left);
        DoubleRightRepairs(l, y, r, n.height);
        RotateRight(Node(RotateLeft(l), y, r, n.height))
    else if balance < -1 then
      var rightBalance := Balance(r);
      if rightBalance <= 0 then
        SingleLeftRepairs(l, y, r);
        RotateLeft(n)
      else
        HeightNonNegative(r.right);
        DoubleLeftRepairs(l, y, r, n.height);
        RotateLeft(Node(l, y, RotateRight(r), n.height))
    else
      n
  }

  /** What removing `x` from the AVL tree `t` promises about the frame's result `r`. */
  ghost predicate RemovePost(t: Tree, x: int, r: Step)
  {
    && Avl(r.tree)
    && Items(r.tree) == Items(t) - {x}
    && (r.changed <==> x in Items(t))
    && (!r.changed ==> r.tree == t)
    && Height(t) - 1 <= Height(r.tree) <= Height(t)
  }

  /** The frame that recursed to the left hands `RemoveRebalance` what it needs and keeps `RemovePost`. */
  lemma RemoveLeftFrame(l: Tree, y: int, rt: Tree, h: int, x: int, s: Step)
    requires Avl(Node(l, y, rt, h)) && x < y
    requires RemovePost(l, x, s)
    ensures Avl(s.tree) && Avl(rt) && Ordered(s.tree, y, rt)
    ensures -2 <= Height(s.tree) - Height(rt) <= 1
    ensures RemovePost(Node(l, y, rt, h), x, Step(RemoveRebalance(s.tree, y, rt), s.changed))
  {
    assert Avl(l) && Avl(rt) && Ordered(l, y, rt);
    assert Ordered(s.tree, y, rt);
    assert Items(Node(l, y, rt, h)) - {x} == Items(s.tree) + {y} + Items(rt);
  }

  /** Mirror of `RemoveLeftFrame`. */
  lemma RemoveRightFrame(l: Tree, y: int, rt: Tree, h: int, x: int, s: Step)
    requires Avl(Node(l, y, rt, h)) && y < x
    requires RemovePost(rt, x, s)
    ensures Avl(l) && Avl(s.tree) && Ordered(l, y, s.tree)
    ensures -1 <= Height(l) - Height(s.tree) <= 2
    ensures RemovePost(Node(l, y, rt, h), x, Step(RemoveRebalance(l, y, s.tree), s.changed))
  {
    assert Avl(l) && Avl(rt) && Ordered(l, y, rt);
    assert Ordered(l, y, s.tree);
    assert Items(Node(l, y, rt, h)) - {x} == Items(l) + {y} + Items(s.tree);
  }

  /**
    The two-child frame: the successor's item `m` replaces the removed one
    and `s` is the result of removing `m` from the right subtree.
   */
  lemma RemoveSuccessorFrame(l: Tree, y: int, rt: Tree, h: int, m: int, s: Step)
    requires Avl(Node(l, y, rt, h)) && l.Node? && rt.Node?
    requires m in Items(rt) && forall z :: z in Items(rt) ==> m <= z
    requires RemovePost(rt, m, s)
    ensures Avl(l) && Avl(s.tree) && Ordered(l, m, s.tree)
    ensures -1 <= Height(l) - Height(s.tree) <= 2
    ensures RemovePost(Node(l, y, rt, h), y, Step(RemoveRebalance(l, m, s.tree), s.changed))
  {
    assert y < m;
    assert Items(Node(l, y, rt, h)) - {y} == Items(l) + {m} + (Items(rt) - {m});
  }

  /**
    The frame that matched a node with at most one child: the child's
    subtree takes the node's place (the C code copies the child's record
    over the node and then runs the usual height update and rebalance).
   */
  lemma RemoveSpliceFrame(l: Tree, y: int, rt: Tree, h: int, child: Tree)
    requires Avl(Node(l, y, rt, h)) && (l.Nil? || rt.Nil?)
    requires child == (if l.Node? then l else rt) && child.Node?
    ensures Avl(child.left) && Avl(child.right) && Ordered(child.left, child.item, child.right)
    ensures -1 <= Height(child.left) - Height(child.right) <= 1
    ensures RemovePost(Node(l, y, rt, h), y, Step(RemoveRebalance(child.left, child.item, child.right), true))
  {
    assert Avl(l) && Avl(rt);
    assert Bst(child) && HeightCorrect(child) && Balanced(child);
    assert child == Make(child.left, child.item, child.right);
    assert Items(Node(l, y, rt, h)) - {y} == Items(child);
    HeightNonNegative(child);
  }

  /** The frame that matched a leaf: the position becomes empty. */
  lemma RemoveLeafFrame(l: Tree, y: int, rt: Tree, h: int)
    requires Avl(Node(l, y, rt, h)) && l.Nil? && rt.Nil?
    ensures RemovePost(Node(l, y, rt, h), y, Step(Nil, true))
  {
  }

  /**
    `avl_tree_remove_node`: descend by comparison; an empty position means
    the item is absent; a match is spliced out or replaced by its successor;
    every surviving frame rebalances.
   */
  function RemoveNode(t: Tree, x: int): (r: Step)
    requires Avl(t)
    ensures Avl(r.tree)
    ensures Items(r.tree) == Items(t) - {x}
    ensures r.changed <==> x in Items(t)
    ensures !r.changed ==> r.tree == t
    ensures Height(t) - 1 <= Height(r.tree) <= Height(t)
    decreases t
  {
    match t
    case Nil => Step(Nil, false)
    case Node(l, y, rt, h) =>
      if x < y then
        var s := RemoveNode(l, x);
        RemoveLeftFrame(l, y, rt, h, x, s);
        Step(RemoveRebalance(s.tree, y, rt), s.changed)
      else if x > y then
        var s := RemoveNode(rt, x);
        RemoveRightFrame(l, y, rt, h, x, s);
        Step(RemoveRebalance(l, y, s.tree), s.changed)
      else if l.Nil? || rt.Nil? then
        var child := if l.Node? then l else rt;
        if child.Nil? then
          RemoveLeafFrame(l, y, rt, h);
          Step(Nil, true)
        else
          RemoveSpliceFrame(l, y, rt, h, child);
          Step(RemoveRebalance(child.left, child.item, child.right), true)
      else
        var m := Successor(t).item;
        var s := RemoveNode(rt, m);
        RemoveSuccessorFrame(l, y, rt, h, m, s);
        Step(RemoveRebalance(l, m, s.tree), s.changed)
  }

  /** Removing the item of a node with at most one child leaves exactly that child's subtree (or nothing). */
  lemma RemoveSplicesChild(t: Tree)
    requires Avl(t) && t.Node? && (t.left.Nil? || t.right.Nil?)
    ensures RemoveNode(t, t.item).tree == (if t.left.Node? then t.left else t.right)
    ensures RemoveNode(t, t.item).changed
  {
    var child := if t.left.Node? then t.left else t.right;
    if child.Node? {
      assert Avl(child);
      assert child == Make(child.left, child.item, child.right);
    }
  }

  /** `avl_tree_remove`: 1 when an equal item was found and taken out, 0 when none was present. */
  function Remove(t: AvlTree, x: int): (r: Reply)
    requires Avl(t.root)
    ensures Avl(r.tree.root)
    ensures r.code == 0 || r.code == 1
    ensures r.code == 1 <==> x in Items(t.root)
    ensures r.code == 0 ==> r.tree == t
    ensures Items(r.tree.root) == Items(t.root) - {x}
    ensures Size(r.tree.root) + r.code == Size(t.root)
  {
    var s := RemoveNode(t.root, x);
    BstSize(t.root);
    BstSize(s.tree);
    Reply(AvlTree(s.tree), if s.changed then 1 else 0)
  }
}
