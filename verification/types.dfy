/**
  The shapes of avl.h and the null-safe height and balance helpers of
  avl_util.c, together with the invariants every tree built by the library
  keeps: binary-search order, correct cached heights and AVL balance.

  Items are modelled as `int` and the comparator as `<` on them, which is a
  strict total order as the library requires of its comparator.
 */
module AvlTypes {

  datatype Option<T> = None | Some(value: T)

  /** One `avl_tree_node` (or the absent node). `height` is the cached height. */
  datatype Tree = Nil | Node(left: Tree, item: int, right: Tree, height: int)

  /** `avl_tree`: only the root; the hooks are not part of the model. */
  datatype AvlTree = AvlTree(root: Tree)

  /** What a recursive insert or remove frame hands back: the new subtree and the flag it set. */
  datatype Step = Step(tree: Tree, changed: bool)

  /** What `avl_tree_insert` and `avl_tree_remove` produce: the updated tree and the int they return. */
  datatype Reply = Reply(tree: AvlTree, code: int)

  /** `avl_tree_height_node`: the cached height, 0 for the absent node. */
  function Height(t: Tree): (h: int)
    ensures t.Nil? ==> h == 0
    ensures t.Node? ==> h == t.height
  {
    match t
    case Nil => 0
    case Node(_, _, _, h) => h
  }

  /** `avl_tree_balance_node`: height(left) - height(right), 0 for the absent node. */
  function Balance(t: Tree): (b: int)
    ensures t.Nil? ==> b == 0
    ensures t.Node? ==> b == Height(t.left) - Height(t.right)
  {
    match t
    case Nil => 0
    case Node(l, _, r, _) => Height(l) - Height(r)
  }

  /**
    A node whose cached height is recomputed from its children, as every
    frame and rotation does. The larger of two heights is spelled out inline
    here and in `RealHeight` and `HeightCorrect` rather than through a
    helper function: a helper there makes the verifier unfold it without
    end when it evaluates these definitions on concrete trees.
   */
  function Make(l: Tree, x: int, r: Tree): (t: Tree)
    ensures t.Node? && t.left == l && t.item == x && t.right == r
    ensures Height(l) < Height(t) && Height(r) < Height(t)
    ensures Height(t) == Height(l) + 1 || Height(t) == Height(r) + 1
    ensures Balance(t) == Height(l) - Height(r)
    ensures HeightCorrect(l) && HeightCorrect(r) ==> HeightCorrect(t)
  {
    Node(l, x, r, 1 + (if Height(l) > Height(r) then Height(l) else Height(r)))
  }

  /** The height recomputed from the shape alone, ignoring the cached fields. */
  function RealHeight(t: Tree): nat
  {
    match t
    case Nil => 0
    case Node(l, _, r, _) => 1 + (if RealHeight(l) > RealHeight(r) then RealHeight(l) else RealHeight(r))
  }

  /** Number of nodes. */
  function Size(t: Tree): (n: nat)
    ensures n == 0 <==> t.Nil?
  {
    match t
    case Nil => 0
    case Node(l, _, r, _) => Size(l) + 1 + Size(r)
  }

  /** The set of items stored in the tree. */
  function Items(t: Tree): set<int>
  {
    match t
    case Nil => {}
    case Node(l, x, r, _) => Items(l) + {x} + Items(r)
  }

  /** In-order item sequence (`avl_tree_in_order`): left subtree, node, right subtree. */
  function InOrder(t: Tree): (s: seq<int>)
    ensures |s| == Size(t)
    ensures forall z :: z in s <==> z in Items(t)
  {
    match t
    case Nil => []
    case Node(l, x, r, _) => InOrder(l) + [x] + InOrder(r)
  }

  /** Every item of `l` orders before `x` and every item of `r` after it. */
  ghost predicate Ordered(l: Tree, x: int, r: Tree)
  {
    && (forall z :: z in Items(l) ==> z < x)
    && (forall z :: z in Items(r) ==> x < z)
  }

  /** Binary-search order at every node. */
  ghost predicate Bst(t: Tree)
  {
    match t
    case Nil => true
    case Node(l, x, r, _) => Bst(l) && Bst(r) && Ordered(l, x, r)
  }

  /** Every cached height equals 1 + the larger cached height of the children. */
  ghost predicate HeightCorrect(t: Tree)
  {
    match t
    case Nil => true
    case Node(l, _, r, h) => HeightCorrect(l) && HeightCorrect(r) && h == 1 + (if Height(l) > Height(r) then Height(l) else Height(r))
  }

  /** The AVL condition at every node, not only at the root. */
  ghost predicate Balanced(t: Tree)
  {
    match t
    case Nil => true
    case Node(l, _, r, _) => Balanced(l) && Balanced(r) && -1 <= Height(l) - Height(r) <= 1
  }

  /** The invariant every tree the library hands out keeps. */
  ghost predicate Avl(t: Tree)
  {
    Bst(t) && HeightCorrect(t) && Balanced(t)
  }

  ghost predicate Ascending(s: seq<int>)
  {
    forall i, j :: 0 <= i < j < |s| ==> s[i] < s[j]
  }

  /**
    A single node: what `avl_tree_insert_node` links in at an empty
    position (the allocation hook returns a node with no children and
    height 1).
   */
  function Leaf(x: int): (t: Tree)
    ensures Avl(t) && Items(t) == {x} && Height(t) == 1
  {
    var t := Node(Nil, x, Nil, 1);
    assert Bst(t);
    assert Height(Nil) == 0;
    assert HeightCorrect(t);
    assert Balanced(t);
    assert Items(t) == {} + {x} + {};
    t
  }

  /** With correct cached heights, a height is never negative and is positive exactly on nodes. */
  lemma {:induction false} HeightNonNegative(t: Tree)
    requires HeightCorrect(t)
    ensures Height(t) >= 0
    ensures t.Node? <==> Height(t) >= 1
  {
    match t
    case Nil =>
    case Node(l, _, r, _) =>
      HeightNonNegative(l);
  }

  /** The cached height is the real height whenever the cached heights are correct. */
  lemma {:induction false} CachedHeightIsReal(t: Tree)
    requires HeightCorrect(t)
    ensures Height(t) == RealHeight(t)
    ensures t.Node? ==> Balance(t) == RealHeight(t.left) - RealHeight(t.right)
  {
    match t
    case Nil =>
    case Node(l, _, r, _) =>
      CachedHeightIsReal(l);
      CachedHeightIsReal(r);
  }

  /** A correct tree's cached height and balance are the recomputed ones, and balance lies in [-1, 1]. */
  lemma AvlBalanceInRange(t: Tree)
    requires Avl(t)
    ensures Height(t) == RealHeight(t)
    ensures -1 <= Balance(t) <= 1
  {
    CachedHeightIsReal(t);
  }

  /** A strictly ascending `a + [x] + b` has ascending parts around `x`. */
  lemma AscendingParts(a: seq<int>, x: int, b: seq<int>)
    requires Ascending(a + [x] + b)
    ensures Ascending(a) && Ascending(b)
    ensures forall z :: z in a ==> z < x
    ensures forall z :: z in b ==> x < z
  {
    var s := a + [x] + b;
    forall i, j | 0 <= i < j < |a| ensures a[i] < a[j] {
      assert s[i] == a[i] && s[j] == a[j];
    }
    forall i, j | 0 <= i < j < |b| ensures b[i] < b[j] {
      assert s[|a| + 1 + i] == b[i] && s[|a| + 1 + j] == b[j];
    }
    forall z | z in a ensures z < x {
      var i :| 0 <= i < |a| && a[i] == z;
      assert s[i] == z && s[|a|] == x;
    }
    forall z | z in b ensures x < z {
      var j :| 0 <= j < |b| && b[j] == z;
      assert s[|a|] == x && s[|a| + 1 + j] == z;
    }
  }

  /** Ascending parts around `x` join into a strictly ascending `a + [x] + b`. */
  lemma AscendingJoin(a: seq<int>, x: int, b: seq<int>)
    requires Ascending(a) && Ascending(b)
    requires forall z :: z in a ==> z < x
    requires forall z :: z in b ==> x < z
    ensures Ascending(a + [x] + b)
  {
    var s := a + [x] + b;
    forall i, j | 0 <= i < j < |s| ensures s[i] < s[j] {
      if j < |a| {
        assert s[i] == a[i] && s[j] == a[j];
      } else if j == |a| {
        assert s[i] == a[i] && s[j] == x;
        assert a[i] in a;
      } else if i < |a| {
        assert s[i] == a[i] && s[j] == b[j - |a| - 1];
        assert a[i] in a && b[j - |a| - 1] in b;
      } else if i == |a| {
        assert s[i] == x && s[j] == b[j - |a| - 1];
        assert b[j - |a| - 1] in b;
      } else {
        assert s[i] == b[i - |a| - 1] && s[j] == b[j - |a| - 1];
      }
    }
  }

  lemma AscendingSplit(a: seq<int>, x: int, b: seq<int>)
    ensures Ascending(a + [x] + b) <==>
      Ascending(a) && Ascending(b) &&
      (forall z :: z in a ==> z < x) && (forall z :: z in b ==> x < z)
  {
    if Ascending(a + [x] + b) {
      AscendingParts(a, x, b);
    }
    if Ascending(a) && Ascending(b) && (forall z :: z in a ==> z < x) && (forall z :: z in b ==> x < z) {
      AscendingJoin(a, x, b);
    }
  }

  /** Binary-search order holds exactly when the in-order sequence is strictly ascending. */
  lemma {:induction false} BstIffAscending(t: Tree)
    ensures Bst(t) <==> Ascending(InOrder(t))
  {
    match t
    case Nil =>
    case Node(l, x, r, _) =>
      BstIffAscending(l);
      BstIffAscending(r);
      AscendingSplit(InOrder(l), x, InOrder(r));
  }

  /** In a search tree the node count is the number of distinct items. */
  lemma {:induction false} BstSize(t: Tree)
    requires Bst(t)
    ensures |Items(t)| == Size(t)
  {
    match t
    case Nil =>
    case Node(l, x, r, _) =>
      BstSize(l);
      BstSize(r);
      assert Items(l) !! Items(r) by {
        forall z | z in Items(l) ensures z !in Items(r) {}
      }
      assert x !in Items(l) + Items(r);
      assert Items(t) == (Items(l) + Items(r)) + {x};
  }

  lemma HeadIsLeast(s: seq<int>, z: int)
    requires Ascending(s) && z in s
    ensures s[0] <= z
  {
    var i :| 0 <= i < |s| && s[i] == z;
    if i > 0 {
      assert s[0] < s[i];
    }
  }

  /** Two strictly ascending sequences with the same elements are equal. */
  lemma {:induction false} AscendingUnique(a: seq<int>, b: seq<int>)
    requires Ascending(a) && Ascending(b)
    requires forall z :: z in a <==> z in b
    ensures a == b
    decreases |a|
  {
    assert b != [] ==> b[0] in b;
    if a == [] {
    } else {
      assert a[0] in a;
      assert a[0] in b;
      assert b != [];
      assert b[0] in b;
      assert b[0] in a;
      HeadIsLeast(a, b[0]);
      HeadIsLeast(b, a[0]);
      forall z ensures z in a[1..] <==> z in b[1..] {
        if z in a[1..] {
          var i :| 1 <= i < |a| && a[i] == z;
          assert a[0] < z;
          assert z in b;
        }
        if z in b[1..] {
          var i :| 1 <= i < |b| && b[i] == z;
          assert b[0] < z;
          assert z in a;
        }
      }
      AscendingUnique(a[1..], b[1..]);
      assert a == [a[0]] + a[1..];
      assert b == [b[0]] + b[1..];
    }
  }

  /** Two search trees holding the same items have the same in-order sequence. */
  lemma SameItemsSameInOrder(t: Tree, u: Tree)
    requires Bst(t) && Bst(u)
    requires Items(t) == Items(u)
    ensures InOrder(t) == InOrder(u)
  {
    BstIffAscending(t);
    BstIffAscending(u);
    AscendingUnique(InOrder(t), InOrder(u));
  }
}
