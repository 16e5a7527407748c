/**
  `avl_tree_level_order` of avl.c: one queue per level of the cached height,
  filled by a pre-order walk that appends every node to the queue of its
  depth, then drained level by level. The visitor calls are returned as a
  sequence of (item, level) visits.

  The reference it is proved against is `Tagged`, the pre-order walk with
  each node tagged by its depth: level order visits the same multiset of
  (item, level) pairs, in non-decreasing level, and within each level in the
  reference's (pre-order, left before right) order.
 */
module AvlLevelOrder {
  import opened AvlTypes
  import opened AvlTraverse

  /** What the level-order visitor receives: a node's item and its depth. */
  datatype Visit = Visit(item: int, level: int)

  /** Reference walk: pre-order, each node tagged with its depth (the root gets `level`). */
  function Tagged(t: Tree, level: int): seq<Visit>
  {
    match t
    case Nil => []
    case Node(l, x, r, _) => [Visit(x, level)] + Tagged(l, level + 1) + Tagged(r, level + 1)
  }

  /** The walk visits every node once, and the depths it assigns stay within the subtree's height. */
  lemma {:induction false} TaggedShape(t: Tree, level: int)
    ensures |Tagged(t, level)| == Size(t)
    ensures forall v :: v in Tagged(t, level) ==> level <= v.level < level + RealHeight(t)
  {
    match t
    case Nil =>
    case Node(l, x, r, _) =>
      TaggedShape(l, level + 1);
      TaggedShape(r, level + 1);
  }

  /** The items of a visit sequence, in order. */
  function Visited(vs: seq<Visit>): seq<int>
  {
    seq(|vs|, i requires 0 <= i < |vs| => vs[i].item)
  }

  /** The tagged walk lists the items in pre-order. */
  lemma {:induction false} TaggedFollowsPreOrder(t: Tree, level: int)
    ensures Visited(Tagged(t, level)) == PreOrder(t)
  {
    match t
    case Nil =>
    case Node(l, x, r, _) =>
      TaggedFollowsPreOrder(l, level + 1);
      TaggedFollowsPreOrder(r, level + 1);
      VisitedJoin(x, level, Tagged(l, level + 1), Tagged(r, level + 1), PreOrder(l), PreOrder(r));
  }

  lemma VisitedJoin(x: int, level: int, a: seq<Visit>, b: seq<Visit>, pa: seq<int>, pb: seq<int>)
    requires Visited(a) == pa && Visited(b) == pb
    ensures Visited([Visit(x, level)] + a + b) == [x] + pa + pb
  {
    VisitedConcat([Visit(x, level)] + a, b);
    VisitedConcat([Visit(x, level)], a);
    assert Visited([Visit(x, level)]) == [x];
  }

  lemma VisitedConcat(a: seq<Visit>, b: seq<Visit>)
    ensures Visited(a + b) == Visited(a) + Visited(b)
  {
  }

  /** The items of the visits at level `k`, in their order. */
  function AtLevel(vs: seq<Visit>, k: int): seq<int>
  {
    if vs == [] then []
    else (if vs[0].level == k then [vs[0].item] else []) + AtLevel(vs[1..], k)
  }

  lemma {:induction false} AtLevelConcat(a: seq<Visit>, b: seq<Visit>, k: int)
    ensures AtLevel(a + b, k) == AtLevel(a, k) + AtLevel(b, k)
    decreases |a|
  {
    if a != [] {
      assert (a + b)[1..] == a[1..] + b;
      AtLevelConcat(a[1..], b, k);
    } else {
      assert a + b == b;
    }
  }

  lemma {:induction false} AtLevelAbsent(vs: seq<Visit>, k: int)
    requires forall v :: v in vs ==> v.level != k
    ensures AtLevel(vs, k) == []
    decreases |vs|
  {
    if vs != [] {
      assert vs[0] in vs;
      assert forall v :: v in vs[1..] ==> v in vs;
      AtLevelAbsent(vs[1..], k);
    }
  }

  /** A queue drained at level `k`: each entry becomes a visit at that level. */
  function Tag(q: seq<int>, k: int): seq<Visit>
  {
    seq(|q|, i requires 0 <= i < |q| => Visit(q[i], k))
  }

  /** A drained queue shows up, in queue order, at its own level and at no other. */
  lemma {:induction false} TagAtLevel(q: seq<int>, k: int, j: int)
    ensures AtLevel(Tag(q, k), j) == if j == k then q else []
    decreases |q|
  {
    if q != [] {
      assert Tag(q, k)[1..] == Tag(q[1..], k);
      TagAtLevel(q[1..], k, j);
      assert q == [q[0]] + q[1..];
    }
  }

  /**
    `avl_tree_level_order_node`: a pre-order walk appending each node to
    the queue of its level. The queue array has room for every level the
    subtree reaches.
   */
  function Distribute(t: Tree, level: nat, queues: seq<seq<int>>): (qs: seq<seq<int>>)
    requires level + RealHeight(t) <= |queues|
    ensures |qs| == |queues|
    decreases t
  {
    match t
    case Nil => queues
    case Node(l, x, r, _) =>
      Distribute(r, level + 1, Distribute(l, level + 1, queues[level := queues[level] + [x]]))
  }

  /** Queue `k` ends up holding, after what it held, the nodes of depth `k` in pre-order. */
  lemma {:induction false} DistributeFillsLevels(t: Tree, level: nat, queues: seq<seq<int>>, k: int)
    requires level + RealHeight(t) <= |queues|
    requires 0 <= k < |queues|
    ensures Distribute(t, level, queues)[k] == queues[k] + AtLevel(Tagged(t, level), k)
    decreases t
  {
    match t
    case Nil =>
      assert queues[k] + [] == queues[k];
    case Node(l, x, r, _) =>
      var q1 := queues[level := queues[level] + [x]];
      var q2 := Distribute(l, level + 1, q1);
      DistributeFillsLevels(l, level + 1, q1, k);
      DistributeFillsLevels(r, level + 1, q2, k);
      TaggedNodeAtLevel(t, level, k);
      var mine := if k == level then [x] else [];
      var a, b := AtLevel(Tagged(l, level + 1), k), AtLevel(Tagged(r, level + 1), k);
      assert q1[k] == queues[k] + mine;
      AppendThree(queues[k], q1[k], q2[k], Distribute(t, level, queues)[k], mine, a, b);
  }

  lemma AppendThree(q0: seq<int>, q1: seq<int>, q2: seq<int>, q3: seq<int>, a: seq<int>, b: seq<int>, c: seq<int>)
    requires q1 == q0 + a && q2 == q1 + b && q3 == q2 + c
    ensures q3 == q0 + (a + b + c)
  {
    assert q0 + a + b + c == q0 + (a + b + c);
  }

  /** Splitting a node's tagged walk at level `k` into the node and its two subtrees. */
  lemma TaggedNodeAtLevel(t: Tree, level: int, k: int)
    requires t.Node?
    ensures AtLevel(Tagged(t, level), k)
      == (if k == level then [t.item] else []) + AtLevel(Tagged(t.left, level + 1), k) + AtLevel(Tagged(t.right, level + 1), k)
  {
    var head, a, b := [Visit(t.item, level)], Tagged(t.left, level + 1), Tagged(t.right, level + 1);
    AtLevelConcat(head + a, b, k);
    AtLevelConcat(head, a, k);
    assert head[1..] == [];
  }

  /** The drain loop of `avl_tree_level_order`: queue `i`, then queue `i + 1`, up to the last. */
  function Drain(qs: seq<seq<int>>, i: nat): (vs: seq<Visit>)
    requires i <= |qs|
    ensures forall v :: v in vs ==> i <= v.level < |qs|
    decreases |qs| - i
  {
    if i == |qs| then [] else Tag(qs[i], i) + Drain(qs, i + 1)
  }

  ghost predicate LevelsNonDecreasing(vs: seq<Visit>)
  {
    forall a, b :: 0 <= a < b < |vs| ==> vs[a].level <= vs[b].level
  }

  lemma {:induction false} DrainSorted(qs: seq<seq<int>>, i: nat)
    requires i <= |qs|
    ensures LevelsNonDecreasing(Drain(qs, i))
    decreases |qs| - i
  {
    if i < |qs| {
      DrainSorted(qs, i + 1);
      var head, rest := Tag(qs[i], i), Drain(qs, i + 1);
      var vs := head + rest;
      forall a, b | 0 <= a < b < |vs| ensures vs[a].level <= vs[b].level {
        if b < |head| {
          assert vs[a] == head[a] && vs[b] == head[b];
        } else if a < |head| {
          assert vs[a] == head[a] && vs[b] == rest[b - |head|];
          assert rest[b - |head|] in rest;
        } else {
          assert vs[a] == rest[a - |head|] && vs[b] == rest[b - |head|];
        }
      }
    }
  }

  lemma {:induction false} DrainAtLevel(qs: seq<seq<int>>, i: nat, k: int)
    requires i <= |qs|
    ensures AtLevel(Drain(qs, i), k) == if i <= k < |qs| then qs[k] else []
    decreases |qs| - i
  {
    if i < |qs| {
      var head, rest := Tag(qs[i], i), Drain(qs, i + 1);
      assert Drain(qs, i) == head + rest;
      DrainAtLevel(qs, i + 1, k);
      AtLevelConcat(head, rest, k);
      TagAtLevel(qs[i], i, k);
      if k == i {
        assert AtLevel(rest, k) == [];
      }
    }
  }

  /** The visits the drained queues hold, from queue `i` on. */
  function QueueBag(qs: seq<seq<int>>, i: nat): multiset<Visit>
    requires i <= |qs|
    decreases |qs| - i
  {
    if i == |qs| then multiset{} else multiset(Tag(qs[i], i)) + QueueBag(qs, i + 1)
  }

  lemma {:induction false} DrainBag(qs: seq<seq<int>>, i: nat)
    requires i <= |qs|
    ensures multiset(Drain(qs, i)) == QueueBag(qs, i)
    decreases |qs| - i
  {
    if i < |qs| {
      DrainBag(qs, i + 1);
    }
  }

  lemma {:induction false} QueueBagAppend(qs: seq<seq<int>>, k: nat, x: int, i: nat)
    requires k < |qs| && i <= |qs|
    ensures QueueBag(qs[k := qs[k] + [x]], i) == QueueBag(qs, i) + (if i <= k then multiset{Visit(x, k)} else multiset{})
    decreases |qs| - i
  {
    if i < |qs| {
      QueueBagAppend(qs, k, x, i + 1);
      if i == k {
        assert Tag(qs[k] + [x], k) == Tag(qs[k], k) + [Visit(x, k)];
      }
    }
  }

  lemma {:induction false} QueueBagEmpty(qs: seq<seq<int>>, i: nat)
    requires i <= |qs|
    requires forall j :: 0 <= j < |qs| ==> qs[j] == []
    ensures QueueBag(qs, i) == multiset{}
    decreases |qs| - i
  {
    if i < |qs| {
      QueueBagEmpty(qs, i + 1);
    }
  }

  lemma {:induction false} DistributeBag(t: Tree, level: nat, queues: seq<seq<int>>)
    requires level + RealHeight(t) <= |queues|
    ensures QueueBag(Distribute(t, level, queues), 0) == QueueBag(queues, 0) + multiset(Tagged(t, level))
    decreases t
  {
    match t
    case Nil =>
    case Node(l, x, r, _) =>
      var q1 := queues[level := queues[level] + [x]];
      QueueBagAppend(queues, level, x, 0);
      DistributeBag(l, level + 1, q1);
      DistributeBag(r, level + 1, Distribute(l, level + 1, q1));
  }

  /**
    `avl_tree_level_order`: nothing for an empty tree; otherwise as many
    queues as the cached height, filled by `Distribute` and drained in
    level order. The cached heights must be correct: the queue array is
    sized from the root's cached height.
   */
  function LevelOrder(t: Tree): (vs: seq<Visit>)
    requires HeightCorrect(t)
    ensures t.Nil? ==> vs == []
    ensures forall v :: v in vs ==> 0 <= v.level < Height(t)
  {
    CachedHeightIsReal(t);
    HeightNonNegative(t);
    var height := Height(t);
    if height == 0 then [] else Drain(Distribute(t, 0, seq(height, _ => [])), 0)
  }

  /** Every node is visited exactly once, tagged with its depth. */
  lemma LevelOrderVisitsEachNodeOnce(t: Tree)
    requires HeightCorrect(t)
    ensures multiset(LevelOrder(t)) == multiset(Tagged(t, 0))
    ensures |LevelOrder(t)| == Size(t)
  {
    CachedHeightIsReal(t);
    HeightNonNegative(t);
    var height := Height(t);
    if height > 0 {
      var empty: seq<seq<int>> := seq(height, _ => []);
      DrainBag(Distribute(t, 0, empty), 0);
      DistributeBag(t, 0, empty);
      QueueBagEmpty(empty, 0);
    }
    TaggedShape(t, 0);
    assert |multiset(LevelOrder(t))| == |multiset(Tagged(t, 0))|;
  }

  /** Levels never decrease, and each level lists its nodes in pre-order (left before right). */
  lemma LevelOrderByLevel(t: Tree)
    requires HeightCorrect(t)
    ensures LevelsNonDecreasing(LevelOrder(t))
    ensures forall k :: AtLevel(LevelOrder(t), k) == AtLevel(Tagged(t, 0), k)
  {
    CachedHeightIsReal(t);
    HeightNonNegative(t);
    var height := Height(t);
    if height > 0 {
      var empty: seq<seq<int>> := seq(height, _ => []);
      var queues := Distribute(t, 0, empty);
      DrainSorted(queues, 0);
      forall k ensures AtLevel(LevelOrder(t), k) == AtLevel(Tagged(t, 0), k) {
        DrainAtLevel(queues, 0, k);
        if 0 <= k < height {
          DistributeFillsLevels(t, 0, empty, k);
        } else {
          TaggedShape(t, 0);
          AtLevelAbsent(Tagged(t, 0), k);
        }
      }
    }
  }
}
