/**
 The unbalanced binary search tree (`BinarySearchTree`, laba2.py).

 Nodes carry no extra datum, so a BST is a `Tree<()>`. Insertion sends ties
 to the right; deletion uses the three-case removal in which a node with two
 children takes the key of its in-order successor.
 */
module Bst {
  import opened Trees

  type BstTree = Tree<()>

  /** Recursive insertion (`_insert`): a new leaf where the descent first meets
      an absent child; keys equal to a node's key go right. */
  function Insert(t: BstTree, k: int): BstTree {
    match t
    case Leaf => Node(Leaf, k, Leaf, ())
    case Node(l, x, rt, _) =>
      if k < x then t.(left := Insert(l, k))
      else t.(right := Insert(rt, k))
  }

  /** Recursive three-case deletion (`_delete`): an absent key leaves the tree
      exactly as it was, and no call makes the tree larger. */
  function Delete(t: BstTree, k: int): (r: BstTree)
    ensures k !in Keys(t) ==> r == t
    ensures Size(r) <= Size(t)
  {
    match t
    case Leaf => Leaf
    case Node(l, x, rt, _) =>
      if k < x then t.(left := Delete(l, k))
      else if k > x then t.(right := Delete(rt, k))
      else if l.Leaf? then rt
      else if rt.Leaf? then l
      else
        var m := MinValueNode(rt).key;
        t.(key := m, right := Delete(rt, m))
  }

  /** Insertion adds exactly one occurrence of the key and one node. */
  lemma {:induction false} InsertKeys(t: BstTree, k: int)
    ensures Keys(Insert(t, k)) == Keys(t) + multiset{k}
    ensures Size(Insert(t, k)) == Size(t) + 1
  {
    if t.Node? {
      InsertKeys(t.left, k);
      InsertKeys(t.right, k);
    }
  }

  /** Inserting the keys one after another, as the program's driver loops do. */
  function InsertAll(t: BstTree, ks: seq<int>): BstTree
    decreases |ks|
  {
    if ks == [] then t else InsertAll(Insert(t, ks[0]), ks[1..])
  }

  /** The driver loop stores every key it is given, each once more. */
  lemma {:induction false} InsertAllKeys(t: BstTree, ks: seq<int>)
    ensures Keys(InsertAll(t, ks)) == Keys(t) + multiset(ks)
    decreases |ks|
  {
    if ks != [] {
      InsertKeys(t, ks[0]);
      InsertAllKeys(Insert(t, ks[0]), ks[1..]);
      TailMultiset(ks);
    }
  }

  /** A key inserted within a bound stays within it. */
  lemma {:induction false} InsertBounds(t: BstTree, k: int, b: int)
    ensures AllAtMost(t, b) && k <= b ==> AllAtMost(Insert(t, k), b)
    ensures AllBelow(t, b) && k < b ==> AllBelow(Insert(t, k), b)
    ensures AllAtLeast(t, b) && b <= k ==> AllAtLeast(Insert(t, k), b)
  {
    if t.Node? {
      InsertBounds(t.left, k, b);
      InsertBounds(t.right, k, b);
    }
  }

  /** Insertion keeps the in-order sequence non-decreasing. */
  lemma {:induction false} InsertOrdered(t: BstTree, k: int)
    requires Ordered(t)
    ensures Ordered(Insert(t, k))
  {
    match t
    case Leaf =>
    case Node(l, x, rt, _) =>
      if k < x {
        InsertOrdered(l, k);
        InsertBounds(l, k, x);
      } else {
        InsertOrdered(rt, k);
        InsertBounds(rt, k, x);
      }
  }

  /** Insertion keeps the strict ordering (left < key <= right): ties go right. */
  lemma {:induction false} InsertKeepsSearchTree(t: BstTree, k: int)
    requires SearchTree(t)
    ensures SearchTree(Insert(t, k))
  {
    match t
    case Leaf =>
    case Node(l, x, rt, _) =>
      if k < x {
        InsertKeepsSearchTree(l, k);
        InsertBounds(l, k, x);
      } else {
        InsertKeepsSearchTree(rt, k);
        InsertBounds(rt, k, x);
      }
  }

  /** Deletion never brings in a key from outside the tree, so bounds survive. */
  lemma {:induction false} DeleteBounds(t: BstTree, k: int, b: int)
    ensures AllAtMost(t, b) ==> AllAtMost(Delete(t, k), b)
    ensures AllBelow(t, b) ==> AllBelow(Delete(t, k), b)
    ensures AllAtLeast(t, b) ==> AllAtLeast(Delete(t, k), b)
  {
    match t
    case Leaf =>
    case Node(l, x, rt, _) =>
      if k < x {
        DeleteBounds(l, k, b);
      } else if k > x {
        DeleteBounds(rt, k, b);
      } else if l.Leaf? || rt.Leaf? {
      } else {
        var m := MinValueNode(rt).key;
        DeleteBounds(rt, m, b);
        BoundsMeanKeys(rt, b);
      }
  }

  /** In an ordered tree, deletion removes exactly one occurrence of a present
      key (none of an absent one) and keeps the tree ordered, the two-child
      successor-copy case included. */
  lemma {:induction false} DeleteOrdered(t: BstTree, k: int)
    requires Ordered(t)
    ensures Ordered(Delete(t, k))
    ensures Keys(Delete(t, k)) == Keys(t) - multiset{k}
  {
    match t
    case Leaf =>
    case Node(l, x, rt, _) =>
      if k < x {
        DeleteOrdered(l, k);
        DeleteLeftCase(t, k);
      } else if k > x {
        DeleteOrdered(rt, k);
        DeleteRightCase(t, k);
      } else if l.Leaf? || rt.Leaf? {
        DeleteOneChildCase(t);
      } else {
        var m := MinValueNode(rt).key;
        DeleteOrdered(rt, m);
        DeleteSuccessorCase(t, m);
      }
  }

  /** A node with at most one child is replaced by that child. */
  lemma DeleteOneChildCase(t: BstTree)
    requires Ordered(t) && t.Node? && (t.left.Leaf? || t.right.Leaf?)
    ensures Ordered(Delete(t, t.key))
    ensures Keys(Delete(t, t.key)) == Keys(t) - multiset{t.key}
  {
    if t.left.Leaf? {
      assert Delete(t, t.key) == t.right;
    } else {
      assert Delete(t, t.key) == t.left;
    }
  }

  lemma DeleteLeftCase(t: BstTree, k: int)
    requires Ordered(t) && t.Node? && k < t.key
    requires Ordered(Delete(t.left, k)) && Keys(Delete(t.left, k)) == Keys(t.left) - multiset{k}
    ensures Ordered(Delete(t, k))
    ensures Keys(Delete(t, k)) == Keys(t) - multiset{k}
  {
    var l' := Delete(t.left, k);
    assert Delete(t, k) == t.(left := l');
    DeleteBounds(t.left, k, t.key);
    BoundsMeanKeys(t.right, t.key);
    DropFromLeft(Keys(t.left), t.key, Keys(t.right), k);
  }

  lemma DeleteRightCase(t: BstTree, k: int)
    requires Ordered(t) && t.Node? && k > t.key
    requires Ordered(Delete(t.right, k)) && Keys(Delete(t.right, k)) == Keys(t.right) - multiset{k}
    ensures Ordered(Delete(t, k))
    ensures Keys(Delete(t, k)) == Keys(t) - multiset{k}
  {
    var r' := Delete(t.right, k);
    assert Delete(t, k) == t.(right := r');
    DeleteBounds(t.right, k, t.key);
    BoundsMeanKeys(t.left, t.key);
    DropFromRight(Keys(t.left), t.key, Keys(t.right), k);
  }

  /** The two-child case: the successor key `m` replaces the deleted key and
      one occurrence of `m` leaves the right subtree. */
  lemma DeleteSuccessorCase(t: BstTree, m: int)
    requires Ordered(t) && t.Node? && t.left.Node? && t.right.Node?
    requires m == MinValueNode(t.right).key
    requires Ordered(Delete(t.right, m)) && Keys(Delete(t.right, m)) == Keys(t.right) - multiset{m}
    ensures Ordered(Delete(t, t.key))
    ensures Keys(Delete(t, t.key)) == Keys(t) - multiset{t.key}
  {
    var r' := Delete(t.right, m);
    assert Delete(t, t.key) == t.(key := m, right := r');
    MinValueNodeIsLeast(t.right);
    DeleteBounds(t.right, m, m);
    BoundsMeanKeys(t.right, t.key);
    AtMostWeaken(t.left, t.key, m);
    ReplaceRoot(Keys(t.left), t.key, Keys(t.right), m);
  }

  /** Deletion keeps the strict ordering: the successor key copied into a
      two-child node is above every key left of it and at most every key
      right of it. */
  lemma {:induction false} DeleteKeepsSearchTree(t: BstTree, k: int)
    requires SearchTree(t)
    ensures SearchTree(Delete(t, k))
  {
    match t
    case Leaf =>
    case Node(l, x, rt, _) =>
      if k < x {
        DeleteKeepsSearchTree(l, k);
        DeleteBounds(l, k, x);
      } else if k > x {
        DeleteKeepsSearchTree(rt, k);
        DeleteBounds(rt, k, x);
      } else if l.Leaf? || rt.Leaf? {
      } else {
        var m := MinValueNode(rt).key;
        DeleteKeepsSearchTree(rt, m);
        SearchTreeIsOrdered(rt);
        MinValueNodeIsLeast(rt);
        DeleteBounds(rt, m, m);
        BoundsMeanKeys(rt, x);
        BelowRaise(l, x, m);
      }
  }

  lemma {:induction false} BelowRaise(t: BstTree, b: int, b': int)
    requires AllBelow(t, b) && b <= b'
    ensures AllBelow(t, b')
  {
    if t.Node? {
      BelowRaise(t.left, b, b');
      BelowRaise(t.right, b, b');
    }
  }

  /** Insert-then-delete restores the in-order sequence of any ordered tree. */
  lemma InsertDeleteRoundTrip(t: BstTree, k: int)
    requires Ordered(t)
    ensures InOrder(Delete(Insert(t, k), k)) == InOrder(t)
  {
    var i := Insert(t, k);
    InsertKeys(t, k);
    InsertOrdered(t, k);
    DeleteOrdered(i, k);
    var r := Delete(i, k);
    AddRemove(Keys(t), k);
    OrderedSameKeys(r, t);
  }

  /** Every node has an empty left subtree: the tree is a linked list. */
  ghost predicate RightSpine(t: BstTree) {
    t.Leaf? || (t.left.Leaf? && RightSpine(t.right))
  }

  lemma {:induction false} InsertAtRightEnd(t: BstTree, k: int)
    requires RightSpine(t) && AllAtMost(t, k)
    ensures RightSpine(Insert(t, k))
    ensures Height(Insert(t, k)) == Height(t) + 1
  {
    if t.Node? {
      InsertAtRightEnd(t.right, k);
    }
  }

  /** Keys inserted in non-decreasing order, each at least every key already
      present, extend a degenerate tree by one level per key. */
  lemma {:induction false} AscendingInsertHeight(t: BstTree, ks: seq<int>)
    requires RightSpine(t)
    requires Sorted(ks)
    requires forall i | 0 <= i < |ks| :: AllAtMost(t, ks[i])
    ensures RightSpine(InsertAll(t, ks))
    ensures Height(InsertAll(t, ks)) == Height(t) + |ks|
    decreases |ks|
  {
    if ks != [] {
      InsertAtRightEnd(t, ks[0]);
      var t' := Insert(t, ks[0]);
      forall i | 0 <= i < |ks[1..]| ensures AllAtMost(t', ks[1..][i]) {
        assert ks[1..][i] == ks[i + 1];
        AtMostWeaken(t, ks[0], ks[i + 1]);
        InsertBounds(t, ks[0], ks[i + 1]);
      }
      SortedTail(ks);
      AscendingInsertHeight(t', ks[1..]);
    }
  }

  /** Built from an ascending run of keys, a BST degenerates into a list whose
      height equals the number of keys. */
  lemma AscendingKeysDegenerate(ks: seq<int>)
    requires Sorted(ks)
    ensures Height(InsertAll(Leaf, ks)) == |ks|
  {
    AscendingInsertHeight(Leaf, ks);
  }
}
