/**
  The rotation primitives of avl_util.c (repeated inline in avl_util.h) and
  the in-order successor helper, with the facts the insert and remove
  algorithms rely on: a rotation keeps the in-order sequence, repairs the two
  heights it touches, and turns a node that is left- or right-heavy by two
  back into an AVL subtree.
 */
module AvlUtil {
  import opened AvlTypes

  /**
    `avl_tree_ror_node`: the left child is promoted; the old root becomes its
    right child and takes over the promoted node's former right subtree. The
    demoted node's height is recomputed first, then the promoted node's.
   */
  function RotateRight(t: Tree): (r: Tree)
    requires t.Node? && t.left.Node?
    ensures r.Node? && r.right.Node?
    ensures r.item == t.left.item && r.left == t.left.left
    ensures r.right.item == t.item && r.right.left == t.left.right && r.right.right == t.right
    ensures InOrder(r) == InOrder(t)
    ensures Items(r) == Items(t) && Size(r) == Size(t)
    ensures Bst(r) <==> Bst(t)
    ensures HeightCorrect(t.left.left) && HeightCorrect(t.left.right) && HeightCorrect(t.right) ==> HeightCorrect(r)
  {
    var promoted := t.left;
    var demoted := Make(promoted.right, t.item, t.right);
    var r := Make(promoted.left, promoted.item, demoted);
    assert InOrder(r) == InOrder(t);
    BstIffAscending(t);
    BstIffAscending(r);
    r
  }

  /** `avl_tree_rol_node`: the exact mirror of `RotateRight`. */
  function RotateLeft(t: Tree): (r: Tree)
    requires t.Node? && t.right.Node?
    ensures r.Node? && r.left.Node?
    ensures r.item == t.right.item && r.right == t.right.right
    ensures r.left.item == t.item && r.left.right == t.right.left && r.left.left == t.left
    ensures InOrder(r) == InOrder(t)
    ensures Items(r) == Items(t) && Size(r) == Size(t)
    ensures Bst(r) <==> Bst(t)
    ensures HeightCorrect(t.left) && HeightCorrect(t.right.left) && HeightCorrect(t.right.right) ==> HeightCorrect(r)
  {
    var promoted := t.right;
    var demoted := Make(t.left, t.item, promoted.left);
    var r := Make(demoted, promoted.item, promoted.right);
    assert InOrder(r) == InOrder(t);
    BstIffAscending(t);
    BstIffAscending(r);
    r
  }

  /** On a tree with correct cached heights the two rotations undo each other. */
  lemma RotationsInverse(t: Tree)
    requires t.Node? && t.left.Node? && HeightCorrect(t)
    ensures RotateLeft(RotateRight(t)) == t
  {
    var a := t.left;
    assert a == Make(a.left, a.item, a.right);
    assert t == Make(a, t.item, t.right);
  }

  /** The leftmost node of a non-empty subtree; it carries the least item. */
  function Leftmost(t: Tree): (m: Tree)
    requires t.Node?
    ensures m.Node? && m.left.Nil?
    ensures m.item in Items(t)
    ensures Bst(t) ==> forall z :: z in Items(t) ==> m.item <= z
    decreases t
  {
    if t.left.Nil? then t else Leftmost(t.left)
  }

  /**
    `avl_tree_successor_node`: the leftmost node of the right subtree. The
    caller must pass a node with a right child (the assertion macro that
    would check it expands to nothing).
   */
  function Successor(t: Tree): (s: Tree)
    requires t.Node? && t.right.Node?
    ensures s.Node? && s.left.Nil? && s.item in Items(t.right)
    ensures Bst(t) ==> forall z :: z in Items(t.right) ==> s.item <= z
    ensures Bst(t) ==> t.item < s.item
    ensures Bst(t) ==> forall z :: z in Items(t) && t.item < z ==> s.item <= z
  {
    Leftmost(t.right)
  }

  /** The same walk as the `while (n->left)` loop in the C helper. */
  method FindSuccessor(t: Tree) returns (s: Tree)
    requires t.Node? && t.right.Node?
    ensures s.Node? && s.left.Nil? && s.item in Items(t.right)
    ensures Bst(t) ==> forall z :: z in Items(t) && t.item < z ==> s.item <= z
    ensures s == Successor(t)
  {
    s := t.right;
    while s.left.Node?
      invariant s.Node?
      invariant Items(s) <= Items(t.right)
      invariant Leftmost(s) == Leftmost(t.right)
      decreases s
    {
      s := s.left;
    }
  }

  /**
    A node left-heavy by two whose left child is not right-heavy is repaired
    by one right rotation; the height drops back unless the left child was
    even (which only happens after a removal).
   */
  lemma SingleRightRepairs(l: Tree, y: int, r: Tree)
    requires Avl(l) && Avl(r) && Ordered(l, y, r)
    requires l.Node? && Height(l) == Height(r) + 2 && Balance(l) >= 0
    ensures Avl(RotateRight(Make(l, y, r)))
    ensures Height(RotateRight(Make(l, y, r))) == Height(l) + (if Balance(l) == 0 then 1 else 0)
  {
    var t := RotateRight(Make(l, y, r));
    assert t.right == Make(l.right, y, r);
  }

  /** A node left-heavy by two whose left child leans right is repaired by a left-right double rotation. */
  lemma DoubleRightRepairs(l: Tree, y: int, r: Tree, h: int)
    requires Avl(l) && Avl(r) && Ordered(l, y, r)
    requires l.Node? && l.right.Node? && Height(l) == Height(r) + 2 && Balance(l) < 0
    ensures Avl(RotateRight(Node(RotateLeft(l), y, r, h)))
    ensures Height(RotateRight(Node(RotateLeft(l), y, r, h))) == Height(l)
  {
    var c := l.right;
    var l' := RotateLeft(l);
    assert l' == Make(Make(l.left, l.item, c.left), c.item, c.right);
    assert Bst(Node(l', y, r, h)) by {
      assert Items(l') == Items(l);
    }
    var t := RotateRight(Node(l', y, r, h));
    var lo, hi := Make(l.left, l.item, c.left), Make(c.right, y, r);
    assert t == Make(lo, c.item, hi);
    assert Height(c) == Height(l.left) + 1 == Height(r) + 1;
    assert HeightCorrect(c) && Balanced(c);
    assert HeightCorrect(lo) && HeightCorrect(hi);
    assert Balanced(lo) && Balanced(hi);
  }

  /** Mirror of `SingleRightRepairs`. */
  lemma SingleLeftRepairs(l: Tree, y: int, r: Tree)
    requires Avl(l) && Avl(r) && Ordered(l, y, r)
    requires r.Node? && Height(r) == Height(l) + 2 && Balance(r) <= 0
    ensures Avl(RotateLeft(Make(l, y, r)))
    ensures Height(RotateLeft(Make(l, y, r))) == Height(r) + (if Balance(r) == 0 then 1 else 0)
  {
    var t := RotateLeft(Make(l, y, r));
    assert t.left == Make(l, y, r.left);
  }

  /** Mirror of `DoubleRightRepairs`: the right-left double rotation. */
  lemma DoubleLeftRepairs(l: Tree, y: int, r: Tree, h: int)
    requires Avl(l) && Avl(r) && Ordered(l, y, r)
    requires r.Node? && r.left.Node? && Height(r) == Height(l) + 2 && Balance(r) > 0
    ensures Avl(RotateLeft(Node(l, y, RotateRight(r), h)))
    ensures Height(RotateLeft(Node(l, y, RotateRight(r), h))) == Height(r)
  {
    var c := r.left;
    var r' := RotateRight(r);
    assert r' == Make(c.left, c.item, Make(c.right, r.item, r.right));
    assert Bst(Node(l, y, r', h)) by {
      assert Items(r') == Items(r);
    }
    var t := RotateLeft(Node(l, y, r', h));
    var lo, hi := Make(l, y, c.left), Make(c.right, r.item, r.right);
    assert t == Make(lo, c.item, hi);
    assert Height(c) == Height(r.right) + 1 == Height(l) + 1;
    assert HeightCorrect(c) && Balanced(c);
    assert HeightCorrect(lo) && HeightCorrect(hi);
    assert Balanced(lo) && Balanced(hi);
  }
}
