/**
 Depth-first and breadth-first traversals (`BinarySearchTreeWithHeight`,
 laba2.py).

 Each depth-first traversal of the program appends keys to a shared result
 list while it recurses; here that is an accumulator-passing function, and
 its contract ties it to a plain recursive reference definition. The
 breadth-first traversal is a loop over a FIFO queue, proved equal to the
 level-by-level reading of the tree.
 */
module Traversal {
  import opened Trees
  import Bst

  /* ---------- Reference definitions ---------- */

  /** Root, then left subtree, then right subtree. */
  function PreOrder<A>(t: Tree<A>): seq<int> {
    match t
    case Leaf => []
    case Node(l, k, r, _) => [k] + PreOrder(l) + PreOrder(r)
  }

  /** Left subtree, then right subtree, then root. */
  function PostOrder<A>(t: Tree<A>): seq<int> {
    match t
    case Leaf => []
    case Node(l, k, r, _) => PostOrder(l) + PostOrder(r) + [k]
  }

  /** The keys at depth `d`, left to right. */
  function Level<A>(t: Tree<A>, d: nat): seq<int> {
    match t
    case Leaf => []
    case Node(l, k, r, _) => if d == 0 then [k] else Level(l, d - 1) + Level(r, d - 1)
  }

  /** Levels `d`, `d + 1`, ... of the tree, shallowest first. */
  function LevelsFrom<A>(t: Tree<A>, d: nat): seq<int>
    decreases Height(t) - d
  {
    if d >= Height(t) then [] else Level(t, d) + LevelsFrom(t, d + 1)
  }

  /** Level order: level by level, each level left to right. */
  function LevelOrder<A>(t: Tree<A>): seq<int> {
    LevelsFrom(t, 0)
  }

  /* ---------- The program's depth-first traversals ---------- */

  /** `_dfs_pre_order(node, result)`: appends the pre-order keys to `acc`. */
  function PreOrderInto<A>(t: Tree<A>, acc: seq<int>): (r: seq<int>)
    ensures r == acc + PreOrder(t)
  {
    match t
    case Leaf => acc
    case Node(l, k, rt, _) =>
      var a := PreOrderInto(l, acc + [k]);
      assert a == acc + ([k] + PreOrder(l));
      PreOrderInto(rt, a)
  }

  /** `_dfs_in_order(node, result)`: appends the in-order keys to `acc`. */
  function InOrderInto<A>(t: Tree<A>, acc: seq<int>): (r: seq<int>)
    ensures r == acc + InOrder(t)
  {
    match t
    case Leaf => acc
    case Node(l, k, rt, _) =>
      var a := InOrderInto(l, acc) + [k];
      assert a == acc + InOrder(l) + [k];
      assert acc + InOrder(t) == a + InOrder(rt);
      InOrderInto(rt, a)
  }

  /** `_dfs_post_order(node, result)`: appends the post-order keys to `acc`. */
  function PostOrderInto<A>(t: Tree<A>, acc: seq<int>): (r: seq<int>)
    ensures r == acc + PostOrder(t)
  {
    match t
    case Leaf => acc
    case Node(l, k, rt, _) =>
      var a := PostOrderInto(rt, PostOrderInto(l, acc));
      assert a == acc + (PostOrder(l) + PostOrder(rt));
      a + [k]
  }

  lemma {:induction false} PreOrderKeys<A>(t: Tree<A>)
    ensures multiset(PreOrder(t)) == Keys(t)
  {
    if t.Node? {
      PreOrderKeys(t.left);
      PreOrderKeys(t.right);
    }
  }

  lemma {:induction false} PostOrderKeys<A>(t: Tree<A>)
    ensures multiset(PostOrder(t)) == Keys(t)
  {
    if t.Node? {
      PostOrderKeys(t.left);
      PostOrderKeys(t.right);
    }
  }

  /** `dfs_pre_order`: a permutation of the stored keys, starting at the root. */
  function DfsPreOrder<A>(t: Tree<A>): (r: seq<int>)
    ensures multiset(r) == Keys(t)
    ensures t.Node? ==> |r| > 0 && r[0] == t.key
  {
    PreOrderKeys(t);
    PreOrderInto(t, [])
  }

  /** `dfs_in_order`: a permutation of the stored keys, non-decreasing exactly
      when the tree is ordered. */
  function DfsInOrder<A>(t: Tree<A>): (r: seq<int>)
    ensures multiset(r) == Keys(t)
    ensures Sorted(r) <==> Ordered(t)
  {
    OrderedIffSorted(t);
    InOrderKeys(t);
    var r := InOrderInto(t, []);
    assert r == InOrder(t);
    r
  }

  /** `dfs_post_order`: a permutation of the stored keys, ending at the root. */
  function DfsPostOrder<A>(t: Tree<A>): (r: seq<int>)
    ensures multiset(r) == Keys(t)
    ensures t.Node? ==> |r| > 0 && r[|r| - 1] == t.key
  {
    PostOrderKeys(t);
    PostOrderInto(t, [])
  }

  /* ---------- Breadth-first traversal ---------- */

  /** The children a dequeued node puts on the queue: those present, left first. */
  function Kids<A>(t: Tree<A>): seq<Tree<A>>
    requires t.Node?
  {
    (if t.left.Node? then [t.left] else []) + (if t.right.Node? then [t.right] else [])
  }

  function ForestSize<A>(f: seq<Tree<A>>): nat {
    if f == [] then 0 else Size(f[0]) + ForestSize(f[1..])
  }

  function ForestKeys<A>(f: seq<Tree<A>>): multiset<int> {
    if f == [] then multiset{} else Keys(f[0]) + ForestKeys(f[1..])
  }

  lemma {:induction false} ForestAppend<A>(f: seq<Tree<A>>, g: seq<Tree<A>>)
    ensures ForestSize(f + g) == ForestSize(f) + ForestSize(g)
    ensures ForestKeys(f + g) == ForestKeys(f) + ForestKeys(g)
  {
    if f != [] {
      assert (f + g)[0] == f[0];
      assert (f + g)[1..] == f[1..] + g;
      ForestAppend(f[1..], g);
    } else {
      assert f + g == g;
    }
  }

  lemma Single<A>(t: Tree<A>)
    ensures forall d: nat :: LevelF([t], d) == Level(t, d)
    ensures HeightF([t]) == Height(t)
  {
    assert [t][1..] == [];
  }

  lemma SingleSize<A>(t: Tree<A>)
    ensures ForestSize([t]) == Size(t) && ForestKeys([t]) == Keys(t)
  {
    assert [t][1..] == [];
  }

  lemma KidsSize<A>(t: Tree<A>)
    requires t.Node?
    ensures ForestSize(Kids(t)) == Size(t) - 1
    ensures ForestKeys(Kids(t)) + multiset{t.key} == Keys(t)
  {
    var l, r := t.left, t.right;
    if l.Node? && r.Node? {
      KidsBoth(t);
    } else if l.Node? {
      assert Kids(t) == [l];
      SingleSize(l);
    } else if r.Node? {
      assert Kids(t) == [r];
      SingleSize(r);
    } else {
      assert Kids(t) == [];
    }
  }

  lemma KidsBoth<A>(t: Tree<A>)
    requires t.Node? && t.left.Node? && t.right.Node?
    ensures ForestSize(Kids(t)) == Size(t) - 1
    ensures ForestKeys(Kids(t)) + multiset{t.key} == Keys(t)
  {
    var l, r := t.left, t.right;
    assert Kids(t) == [l] + [r];
    SingleSize(l);
    SingleSize(r);
    ForestAppend([l], [r]);
  }

  /** Dequeuing a node and enqueuing its children shrinks the queue's total size. */
  lemma Step<A>(q: seq<Tree<A>>)
    requires q != [] && q[0].Node?
    ensures ForestSize(q[1..] + Kids(q[0])) == ForestSize(q) - 1
    ensures ForestKeys(q[1..] + Kids(q[0])) + multiset{q[0].key} == ForestKeys(q)
  {
    ForestAppend(q[1..], Kids(q[0]));
    KidsSize(q[0]);
  }

  /** The keys the queue loop emits, starting from queue `q`. */
  ghost function QueueRun<A>(q: seq<Tree<A>>): seq<int>
    decreases ForestSize(q), |q|
  {
    if q == [] then []
    else if q[0].Leaf? then QueueRun(q[1..])
    else
      Step(q);
      [q[0].key] + QueueRun(q[1..] + Kids(q[0]))
  }

  /** `bfs`: dequeue a node, record its key, enqueue its existing children
      left then right, until the queue is empty. The result is the level
      order of the tree, hence a permutation of its keys starting at the root. */
  method Bfs<A>(t: Tree<A>) returns (result: seq<int>)
    ensures result == LevelOrder(t)
    ensures multiset(result) == Keys(t)
    ensures t.Node? ==> |result| > 0 && result[0] == t.key
  {
    result := [];
    if t.Leaf? {
      return;
    }
    var queue := [t];
    while queue != []
      invariant forall i | 0 <= i < |queue| :: queue[i].Node?
      invariant result + QueueRun(queue) == QueueRun([t])
      invariant result == [] ==> queue == [t]
      invariant result != [] ==> result[0] == t.key
      decreases ForestSize(queue)
    {
      var node := queue[0];
      var next := queue[1..];
      if node.left.Node? {
        next := next + [node.left];
      }
      if node.right.Node? {
        next := next + [node.right];
      }
      assert next == queue[1..] + Kids(node);
      DequeueStep(queue, next);
      Assoc(result, [node.key], QueueRun(next));
      result := result + [node.key];
      queue := next;
    }
    assert result == QueueRun([t]) by {
      assert QueueRun(queue) == [];
    }
    QueueRunOfTree(t);
  }

  /** What the queue loop emits from the one-tree queue `[t]`. */
  lemma QueueRunOfTree<A>(t: Tree<A>)
    requires t.Node?
    ensures QueueRun([t]) == LevelOrder(t)
    ensures multiset(QueueRun([t])) == Keys(t)
    ensures |QueueRun([t])| > 0 && QueueRun([t])[0] == t.key
  {
    QueueRunIsLevelOrder(t);
    QueueRunKeys([t]);
    assert [t][1..] == [];
    Step([t]);
  }

  /** One turn of the queue loop emits the head's key and leaves the rest of
      the queue followed by the head's children. */
  lemma DequeueStep<A>(q: seq<Tree<A>>, next: seq<Tree<A>>)
    requires q != [] && q[0].Node?
    requires forall i | 0 <= i < |q| :: q[i].Node?
    requires next == q[1..] + Kids(q[0])
    ensures QueueRun(q) == [q[0].key] + QueueRun(next)
    ensures ForestSize(next) < ForestSize(q)
    ensures forall i | 0 <= i < |next| :: next[i].Node?
  {
    Step(q);
    QueueRunHead(q);
    NodesAfterDequeue(q, next);
  }

  lemma NodesAfterDequeue<A>(q: seq<Tree<A>>, next: seq<Tree<A>>)
    requires q != [] && q[0].Node?
    requires forall i | 0 <= i < |q| :: q[i].Node?
    requires next == q[1..] + Kids(q[0])
    ensures forall i | 0 <= i < |next| :: next[i].Node?
  {
    var n := q[0];
    forall i | 0 <= i < |next| ensures next[i].Node? {
      if i < |q| - 1 {
        assert next[i] == q[i + 1];
      } else {
        assert next[i] == Kids(n)[i - (|q| - 1)];
      }
    }
  }

  /* ---------- Why the queue yields the level order ---------- */

  lemma {:induction false} QueueRunKeys<A>(q: seq<Tree<A>>)
    ensures multiset(QueueRun(q)) == ForestKeys(q)
    decreases ForestSize(q), |q|
  {
    if q != [] {
      if q[0].Leaf? {
        QueueRunKeys(q[1..]);
      } else {
        Step(q);
        QueueRunKeys(q[1..] + Kids(q[0]));
      }
    }
  }

  /** The keys at depth `d` across a forest, tree by tree. */
  function LevelF<A>(f: seq<Tree<A>>, d: nat): seq<int> {
    if f == [] then [] else Level(f[0], d) + LevelF(f[1..], d)
  }

  function HeightF<A>(f: seq<Tree<A>>): nat {
    if f == [] then 0 else Max(Height(f[0]), HeightF(f[1..]))
  }

  /** The next generation of a forest: each node's existing children, in order. */
  function Children<A>(f: seq<Tree<A>>): seq<Tree<A>> {
    if f == [] then []
    else (if f[0].Node? then Kids(f[0]) else []) + Children(f[1..])
  }

  function LevelsF<A>(f: seq<Tree<A>>, d: nat, n: nat): seq<int>
    decreases n - d
  {
    if d >= n then [] else LevelF(f, d) + LevelsF(f, d + 1, n)
  }

  lemma {:induction false} LevelFAppend<A>(f: seq<Tree<A>>, g: seq<Tree<A>>, d: nat)
    ensures LevelF(f + g, d) == LevelF(f, d) + LevelF(g, d)
    ensures HeightF(f + g) == Max(HeightF(f), HeightF(g))
  {
    if f != [] {
      assert (f + g)[0] == f[0];
      assert (f + g)[1..] == f[1..] + g;
      LevelFAppend(f[1..], g, d);
    } else {
      assert f + g == g;
    }
  }

  lemma KidsLevel<A>(t: Tree<A>, d: nat)
    requires t.Node?
    ensures LevelF(Kids(t), d) == Level(t, d + 1)
    ensures HeightF(Kids(t)) == Height(t) - 1
  {
    Single(t.left);
    Single(t.right);
    if t.left.Node? && t.right.Node? {
      LevelFAppend([t.left], [t.right], d);
    } else if t.left.Node? {
      assert Kids(t) == [t.left];
    } else if t.right.Node? {
      assert Kids(t) == [t.right];
    } else {
      assert Kids(t) == [];
    }
  }

  lemma {:induction false} ChildrenLevel<A>(f: seq<Tree<A>>, d: nat)
    ensures LevelF(Children(f), d) == LevelF(f, d + 1)
    ensures HeightF(Children(f)) == if HeightF(f) == 0 then 0 else HeightF(f) - 1
    ensures ForestSize(Children(f)) <= ForestSize(f)
    ensures HeightF(f) > 0 ==> ForestSize(Children(f)) < ForestSize(f)
  {
    if f != [] {
      ChildrenLevel(f[1..], d);
      var k := if f[0].Node? then Kids(f[0]) else [];
      LevelFAppend(k, Children(f[1..]), d);
      ForestAppend(k, Children(f[1..]));
      if f[0].Node? {
        KidsLevel(f[0], d);
        KidsSize(f[0]);
      }
    }
  }

  /** Running the queue over a forest `f` followed by `g` emits the roots of
      `f`, then continues with `g` followed by the children of `f`. */
  lemma {:induction false} QueueSplit<A>(f: seq<Tree<A>>, g: seq<Tree<A>>)
    ensures QueueRun(f + g) == LevelF(f, 0) + QueueRun(g + Children(f))
    decreases |f|
  {
    if f == [] {
      assert f + g == g;
      assert g + Children(f) == g;
    } else {
      var x := f[0];
      assert (f + g)[0] == x;
      assert (f + g)[1..] == f[1..] + g;
      if x.Leaf? {
        QueueSplit(f[1..], g);
        assert QueueRun(f + g) == QueueRun(f[1..] + g);
        assert LevelF(f, 0) == LevelF(f[1..], 0);
        assert Children(f) == Children(f[1..]);
      } else {
        QueueSplit(f[1..], g + Kids(x));
        QueueSplitNode(f, g);
      }
    }
  }

  lemma QueueSplitNode<A>(f: seq<Tree<A>>, g: seq<Tree<A>>)
    requires f != [] && f[0].Node?
    requires QueueRun(f[1..] + (g + Kids(f[0])))
      == LevelF(f[1..], 0) + QueueRun((g + Kids(f[0])) + Children(f[1..]))
    ensures QueueRun(f + g) == LevelF(f, 0) + QueueRun(g + Children(f))
  {
    HeadNode(f, g);
    ForestHead(f, g);
    var k := Kids(f[0]);
    var a := LevelF(f[1..], 0);
    var b := QueueRun((g + k) + Children(f[1..]));
    Assoc([f[0].key], a, b);
  }

  /** The queue `f + g` with a node at its head, after one turn. */
  lemma HeadNode<A>(f: seq<Tree<A>>, g: seq<Tree<A>>)
    requires f != [] && f[0].Node?
    ensures QueueRun(f + g) == [f[0].key] + QueueRun(f[1..] + (g + Kids(f[0])))
  {
    var fg := f + g;
    var k := Kids(f[0]);
    ConsTail(f, g);
    Assoc(f[1..], g, k);
    QueueRunHead(fg);
  }

  lemma ConsTail<T>(f: seq<T>, g: seq<T>)
    requires f != []
    ensures (f + g)[0] == f[0] && (f + g)[1..] == f[1..] + g
  {
  }

  /** Roots and children of a forest whose first tree is a node. */
  lemma ForestHead<A>(f: seq<Tree<A>>, g: seq<Tree<A>>)
    requires f != [] && f[0].Node?
    ensures LevelF(f, 0) == [f[0].key] + LevelF(f[1..], 0)
    ensures (g + Kids(f[0])) + Children(f[1..]) == g + Children(f)
  {
    assert Level(f[0], 0) == [f[0].key];
    assert Children(f) == Kids(f[0]) + Children(f[1..]);
  }

  /** Unfolding the queue run at a node at the head. */
  lemma QueueRunHead<A>(q: seq<Tree<A>>)
    requires q != [] && q[0].Node?
    ensures QueueRun(q) == [q[0].key] + QueueRun(q[1..] + Kids(q[0]))
  {
  }

  lemma {:induction false} LevelsShift<A>(f: seq<Tree<A>>, d: nat, n: nat)
    ensures LevelsF(Children(f), d, n) == LevelsF(f, d + 1, n + 1)
    decreases n - d
  {
    if d < n {
      ChildrenLevel(f, d);
      LevelsShift(f, d + 1, n);
    }
  }

  lemma {:induction false} QueueRunLevels<A>(f: seq<Tree<A>>)
    ensures QueueRun(f) == LevelsF(f, 0, HeightF(f))
    decreases ForestSize(f)
  {
    var h := HeightF(f);
    ChildrenLevel(f, 0);
    if h == 0 {
      FlatQueueRun(f);
    } else {
      var c := Children(f);
      QueueRunLevels(c);
      NextLevels(f, h);
    }
  }

  /** The levels of a non-empty forest: its first level, then the levels of
      the next generation. */
  lemma NextLevels<A>(f: seq<Tree<A>>, h: nat)
    requires h == HeightF(f) > 0
    requires QueueRun(Children(f)) == LevelsF(Children(f), 0, HeightF(Children(f)))
    ensures QueueRun(f) == LevelsF(f, 0, h)
  {
    ChildrenLevel(f, 0);
    QueueRunFirstLevel(f);
    LevelsShift(f, 0, h - 1);
  }

  /** One pass over the queue: the first level, then the next generation. */
  lemma QueueRunFirstLevel<A>(f: seq<Tree<A>>)
    ensures QueueRun(f) == LevelF(f, 0) + QueueRun(Children(f))
  {
    QueueSplit(f, []);
    assert f + [] == f;
    assert [] + Children(f) == Children(f);
  }

  /** A forest of empty trees yields nothing. */
  lemma FlatQueueRun<A>(f: seq<Tree<A>>)
    requires HeightF(f) == 0
    ensures QueueRun(f) == []
  {
    QueueRunFirstLevel(f);
    NoLevels(f);
    assert QueueRun(Children(f)) == [];
  }

  lemma {:induction false} NoLevels<A>(f: seq<Tree<A>>)
    requires HeightF(f) == 0
    ensures LevelF(f, 0) == []
    ensures Children(f) == []
  {
    if f != [] {
      NoLevels(f[1..]);
    }
  }

  lemma {:induction false} SingleLevels<A>(t: Tree<A>, d: nat)
    ensures LevelsF([t], d, Height(t)) == LevelsFrom(t, d)
    decreases Height(t) - d
  {
    assert [t][1..] == [];
    if d < Height(t) {
      SingleLevels(t, d + 1);
      assert LevelF([t], d) == Level(t, d) + LevelF([t][1..], d);
    }
  }

  lemma QueueRunIsLevelOrder<A>(t: Tree<A>)
    ensures QueueRun([t]) == LevelOrder(t)
  {
    assert [t][1..] == [];
    Single(t);
    QueueRunLevels([t]);
    SingleLevels(t, 0);
  }

  /* ---------- The program's worked example ---------- */

  /** The tree the program's driver builds from its ten sample keys. */
  function ExampleTree(): Bst.BstTree {
    Node(
      Node(Node(Node(Leaf, 4, Leaf, ()), 10, Leaf, ()), 23, Node(Node(Leaf, 61, Leaf, ()), 69, Leaf, ()), ()),
      79,
      Node(Node(Node(Leaf, 83, Leaf, ()), 85, Node(Leaf, 85, Leaf, ()), ()), 90, Leaf, ()),
      ())
  }

  /** The program's ten sample keys, in the order the driver inserts them. */
  const SampleKeys: seq<int> := [79, 23, 90, 69, 85, 10, 4, 85, 61, 83]

  /** The tree after the first five sample keys. */
  function HalfTree(): Bst.BstTree {
    Node(Node(Leaf, 23, Node(Leaf, 69, Leaf, ()), ()), 79, Node(Node(Leaf, 85, Leaf, ()), 90, Leaf, ()), ())
  }

  /** Inserting 79, 23, 90, 69, 85, 10, 4, 85, 61, 83 into an empty BST gives
      the example tree: the second 85 lands right of the first. */
  lemma ExampleBuild()
    ensures Bst.InsertAll(Leaf, SampleKeys) == ExampleTree()
  {
    ExampleFirstHalf();
    ExampleSecondHalf();
  }

  lemma ExampleFirstHalf()
    ensures Bst.InsertAll(Leaf, SampleKeys) == Bst.InsertAll(HalfTree(), SampleKeys[5..])
  {
    var ks := SampleKeys;
    var t1 := Node(Leaf, 79, Leaf, ());
    var t2 := Node(Node(Leaf, 23, Leaf, ()), 79, Leaf, ());
    var t3 := Node(Node(Leaf, 23, Leaf, ()), 79, Node(Leaf, 90, Leaf, ()), ());
    var t4 := Node(Node(Leaf, 23, Node(Leaf, 69, Leaf, ()), ()), 79, Node(Leaf, 90, Leaf, ()), ());
    InsertAllStep(Leaf, ks, t1);
    InsertAllStep(t1, ks[1..], t2);
    InsertAllStep(t2, ks[2..], t3);
    InsertAllStep(t3, ks[3..], t4);
    assert ks[4..][1..] == ks[5..];
    InsertAllStep(t4, ks[4..], HalfTree());
  }

  lemma ExampleSecondHalf()
    ensures Bst.InsertAll(HalfTree(), SampleKeys[5..]) == ExampleTree()
  {
    var ks := SampleKeys[5..];
    assert ks == [10, 4, 85, 61, 83];
    var n4 := Node(Leaf, 4, Leaf, ());
    var n61 := Node(Leaf, 61, Leaf, ());
    var n85b := Node(Leaf, 85, Leaf, ());
    var t6 := Node(Node(Node(Leaf, 10, Leaf, ()), 23, Node(Leaf, 69, Leaf, ()), ()), 79, Node(Node(Leaf, 85, Leaf, ()), 90, Leaf, ()), ());
    var t7 := Node(Node(Node(n4, 10, Leaf, ()), 23, Node(Leaf, 69, Leaf, ()), ()), 79, Node(Node(Leaf, 85, Leaf, ()), 90, Leaf, ()), ());
    var t8 := Node(Node(Node(n4, 10, Leaf, ()), 23, Node(Leaf, 69, Leaf, ()), ()), 79, Node(Node(Leaf, 85, n85b, ()), 90, Leaf, ()), ());
    var t9 := Node(Node(Node(n4, 10, Leaf, ()), 23, Node(n61, 69, Leaf, ()), ()), 79, Node(Node(Leaf, 85, n85b, ()), 90, Leaf, ()), ());
    InsertAllStep(HalfTree(), ks, t6);
    InsertAllStep(t6, ks[1..], t7);
    InsertAllStep(t7, ks[2..], t8);
    InsertAllStep(t8, ks[3..], t9);
    InsertAllStep(t9, ks[4..], ExampleTree());
  }

  /** One insertion of the driver loop. */
  lemma InsertAllStep(t: Bst.BstTree, ks: seq<int>, t': Bst.BstTree)
    requires ks != [] && Bst.Insert(t, ks[0]) == t'
    ensures Bst.InsertAll(t, ks) == Bst.InsertAll(t', ks[1..])
  {
  }

  /** The four traversals of the example tree, as the program lists them. */
  lemma WorkedExample()
    ensures var t := Bst.InsertAll(Leaf, [79, 23, 90, 69, 85, 10, 4, 85, 61, 83]);
      && InOrder(t) == [4, 10, 23, 61, 69, 79, 83, 85, 85, 90]
      && PreOrder(t) == [79, 23, 10, 4, 69, 61, 90, 85, 83, 85]
      && PostOrder(t) == [4, 10, 61, 69, 23, 83, 85, 85, 90, 79]
      && LevelOrder(t) == [79, 23, 90, 10, 69, 85, 4, 61, 83, 85]
  {
    ExampleBuild();
    ExampleInOrder();
    ExamplePreOrder();
    ExamplePostOrder();
    ExampleLevels();
  }

  lemma ExampleInOrder()
    ensures InOrder(ExampleTree()) == [4, 10, 23, 61, 69, 79, 83, 85, 85, 90]
  {
    var e := ExampleTree();
    assert InOrder(e.left) == [4, 10, 23, 61, 69];
    assert InOrder(e.right) == [83, 85, 85, 90];
  }

  lemma ExamplePreOrder()
    ensures PreOrder(ExampleTree()) == [79, 23, 10, 4, 69, 61, 90, 85, 83, 85]
  {
    var e := ExampleTree();
    assert PreOrder(e.left.left) == [10, 4];
    assert PreOrder(e.left.right) == [69, 61];
    assert PreOrder(e.left) == [23, 10, 4, 69, 61];
    assert PreOrder(e.right.left) == [85, 83, 85];
    assert PreOrder(e.right) == [90, 85, 83, 85];
  }

  lemma ExamplePostOrder()
    ensures PostOrder(ExampleTree()) == [4, 10, 61, 69, 23, 83, 85, 85, 90, 79]
  {
    var e := ExampleTree();
    assert PostOrder(e.left) == [4, 10, 61, 69, 23];
    assert PostOrder(e.right) == [83, 85, 85, 90];
  }

  lemma ExampleLevels()
    ensures LevelOrder(ExampleTree()) == [79, 23, 90, 10, 69, 85, 4, 61, 83, 85]
  {
    var e := ExampleTree();
    ExampleHeight();
    ExampleDeepLevels();
    assert LevelsFrom(e, 4) == [];
    assert LevelsFrom(e, 3) == [4, 61, 83, 85];
    assert LevelsFrom(e, 2) == [10, 69, 85] + [4, 61, 83, 85];
    assert LevelsFrom(e, 1) == [23, 90] + [10, 69, 85, 4, 61, 83, 85];
    assert LevelsFrom(e, 0) == [79] + [23, 90, 10, 69, 85, 4, 61, 83, 85];
  }

  lemma ExampleHeight()
    ensures Height(ExampleTree()) == 4
  {
    var e := ExampleTree();
    assert Height(e.left.left) == 2;
    assert Height(e.left.right) == 2;
    assert Height(e.right.left) == 2;
    assert Height(e.left) == 3;
    assert Height(e.right) == 3;
  }

  lemma ExampleDeepLevels()
    ensures Level(ExampleTree(), 1) == [23, 90]
    ensures Level(ExampleTree(), 2) == [10, 69, 85]
    ensures Level(ExampleTree(), 3) == [4, 61, 83, 85]
  {
    var e := ExampleTree();
    assert Level(e.left, 1) == [10, 69];
    assert Level(e.right, 1) == [85];
    assert Level(e.left, 2) == [4, 61];
    assert Level(e.right, 2) == [83, 85];
  }
}
