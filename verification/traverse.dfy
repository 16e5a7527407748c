/**
  avl.c: the read-only consumers of the tree. Visitor callbacks become
  returned sequences: a traversal returns the items in visiting order, find
  returns the item it would hand to the visitor, level order returns the
  (item, level) pairs in visiting order and destroy returns the nodes in the
  order they are released.
 */
module AvlTraverse {
  import opened AvlTypes

  /** `avl_tree_init`: an empty tree. */
  function Init(): (t: AvlTree)
    ensures t.root.Nil?
    ensures Avl(t.root) && Items(t.root) == {}
  {
    AvlTree(Nil)
  }

  /** `avl_tree_num_items`: counts nodes; on a search tree that is the number of distinct items. */
  function NumItems(t: AvlTree): (n: nat)
    ensures n == 0 <==> t.root.Nil?
    ensures n == |InOrder(t.root)| == |PreOrder(t.root)| == |PostOrder(t.root)|
  {
    Size(t.root)
  }

  /** On a search tree the count is the number of distinct items stored. */
  lemma NumItemsCountsItems(t: AvlTree)
    requires Bst(t.root)
    ensures NumItems(t) == |Items(t.root)|
  {
    BstSize(t.root);
  }

  /** `avl_tree_height`: the root's cached height, 0 for an empty tree. */
  function TreeHeight(t: AvlTree): (h: int)
    ensures t.root.Nil? ==> h == 0
  {
    Height(t.root)
  }

  /** With correct cached heights the reported height is the real one. */
  lemma TreeHeightIsReal(t: AvlTree)
    requires HeightCorrect(t.root)
    ensures TreeHeight(t) == RealHeight(t.root)
    ensures t.root.Node? ==> TreeHeight(t) >= 1
  {
    CachedHeightIsReal(t.root);
  }

  /**
    `avl_tree_find`: walk down by comparison; on an equal item hand it to
    the visitor (returned here as `visited`) and return 1, else return 0.
   */
  method Find(t: AvlTree, x: int) returns (found: int, visited: Option<int>)
    ensures found == 0 || found == 1
    ensures found == 1 ==> visited == Some(x) && x in Items(t.root)
    ensures found == 0 ==> visited == None
    ensures Bst(t.root) ==> (found == 1 <==> x in Items(t.root))
  {
    var node := t.root;
    while node.Node?
      invariant Items(node) <= Items(t.root)
      invariant Bst(t.root) ==> Bst(node) && (x in Items(t.root) ==> x in Items(node))
      decreases node
    {
      if x < node.item {
        node := node.left;
      } else if x > node.item {
        node := node.right;
      } else {
        return 1, Some(node.item);
      }
    }
    return 0, None;
  }

  /** `avl_tree_pre_order`: node, then left subtree, then right subtree. */
  function PreOrder(t: Tree): (s: seq<int>)
    ensures multiset(s) == multiset(InOrder(t))
    ensures |s| == Size(t)
    ensures t.Node? ==> s[0] == t.item
  {
    match t
    case Nil => []
    case Node(l, x, r, _) => [x] + PreOrder(l) + PreOrder(r)
  }

  /** `avl_tree_post_order`: left subtree, then right subtree, then node. */
  function PostOrder(t: Tree): (s: seq<int>)
    ensures multiset(s) == multiset(InOrder(t))
    ensures |s| == Size(t)
    ensures t.Node? ==> s[|s| - 1] == t.item
  {
    match t
    case Nil => []
    case Node(l, x, r, _) => PostOrder(l) + PostOrder(r) + [x]
  }

  /** A search tree's in-order traversal is strictly ascending, and only a search tree's is. */
  lemma InOrderSorted(t: AvlTree)
    ensures Bst(t.root) <==> Ascending(InOrder(t.root))
  {
    BstIffAscending(t.root);
  }

  /** Every node of `t`, each as the subtree it roots. */
  function Nodes(t: Tree): (ns: set<Tree>)
    ensures forall u :: u in ns ==> u.Node?
  {
    match t
    case Nil => {}
    case Node(l, _, r, _) => {t} + Nodes(l) + Nodes(r)
  }

  /** The nodes strictly below the root of `t`. */
  function Below(t: Tree): set<Tree>
  {
    match t
    case Nil => {}
    case Node(l, _, r, _) => Nodes(l) + Nodes(r)
  }

  /**
    `avl_tree_destroy`: the nodes handed to the release hook, in order,
    children before their parent.
   */
  function DestroyOrder(t: Tree): (s: seq<Tree>)
    ensures |s| == Size(t)
    ensures forall u :: u in s ==> u.Node?
  {
    match t
    case Nil => []
    case Node(l, x, r, _) => DestroyOrder(l) + DestroyOrder(r) + [t]
  }

  /** Every node is released, and nothing that is not a node of the tree. */
  lemma {:induction false} DestroyReleasesEveryNode(t: Tree)
    ensures forall u :: u in DestroyOrder(t) <==> u in Nodes(t)
  {
    match t
    case Nil =>
    case Node(l, x, r, _) =>
      DestroyReleasesEveryNode(l);
      DestroyReleasesEveryNode(r);
  }

  /** The release order is the post-order traversal, node for node. */
  lemma {:induction false} DestroyFollowsPostOrder(t: Tree)
    ensures |DestroyOrder(t)| == |PostOrder(t)|
    ensures forall i :: 0 <= i < |DestroyOrder(t)| ==> DestroyOrder(t)[i].item == PostOrder(t)[i]
  {
    match t
    case Nil =>
    case Node(l, x, r, _) =>
      DestroyFollowsPostOrder(l);
      DestroyFollowsPostOrder(r);
      var a, b := DestroyOrder(l), DestroyOrder(r);
      var pa, pb := PostOrder(l), PostOrder(r);
      forall i | 0 <= i < |DestroyOrder(t)| ensures DestroyOrder(t)[i].item == PostOrder(t)[i] {
        if i < |a| {
          assert DestroyOrder(t)[i] == a[i] && PostOrder(t)[i] == pa[i];
        } else if i < |a| + |b| {
          assert DestroyOrder(t)[i] == b[i - |a|] && PostOrder(t)[i] == pb[i - |a|];
        }
      }
  }

  /** No node is released before a node below it. */
  lemma {:induction false} DestroyChildrenFirst(t: Tree)
    ensures forall i, u :: 0 <= i < |DestroyOrder(t)| && u in Below(DestroyOrder(t)[i]) ==> u in DestroyOrder(t)[..i]
  {
    match t
    case Nil =>
    case Node(l, x, r, _) =>
      DestroyChildrenFirst(l);
      DestroyChildrenFirst(r);
      DestroyReleasesEveryNode(l);
      DestroyReleasesEveryNode(r);
      var a, b := DestroyOrder(l), DestroyOrder(r);
      var s := DestroyOrder(t);
      assert s == a + b + [t];
      forall i, u | 0 <= i < |s| && u in Below(s[i]) ensures u in s[..i] {
        if i < |a| {
          assert s[i] == a[i] && s[..i] == a[..i];
        } else if i < |a| + |b| {
          var j := i - |a|;
          assert s[i] == b[j];
          assert u in b[..j];
          assert s[..i] == a + b[..j];
        } else {
          assert s[i] == t;
          assert s[..i] == a + b;
        }
      }
  }
}
