/**
 The AVL tree (`AVLTree`, laba2.py).

 Every node caches its height in the tag (`AVLNode.height`). Insertion and
 deletion follow the plain search-tree descent; on the way back up each node
 on the path gets its cached height recomputed from its children and is then
 rebalanced with at most two rotations.
 */
module Avl {
  import opened Trees

  type AvlTree = Tree<nat>

  /** `_get_height`: the cached height, 0 for an absent child. */
  function H(t: AvlTree): nat {
    if t.Leaf? then 0 else t.tag
  }

  /** `_get_balance`: left cached height minus right cached height (0 for an
      absent node). */
  function BalanceFactor(t: AvlTree): int {
    if t.Leaf? then 0 else H(t.left) - H(t.right)
  }

  /** A node whose cached height is recomputed from its children's cached
      heights (`node.height = 1 + max(...)`). */
  function Mk(l: AvlTree, k: int, r: AvlTree): AvlTree {
    Node(l, k, r, 1 + Max(H(l), H(r)))
  }

  /** Every cached height is one more than the larger cached child height. */
  ghost predicate HeightsOk(t: AvlTree) {
    t.Leaf? || (t.tag == 1 + Max(H(t.left), H(t.right)) && HeightsOk(t.left) && HeightsOk(t.right))
  }

  /** Every node's balance factor is -1, 0 or 1. */
  ghost predicate Balanced(t: AvlTree) {
    t.Leaf? || (-1 <= H(t.left) - H(t.right) <= 1 && Balanced(t.left) && Balanced(t.right))
  }

  /** The AVL shape invariant: correct cached heights, balanced everywhere. */
  ghost predicate Wf(t: AvlTree) {
    HeightsOk(t) && Balanced(t)
  }

  /** An AVL search tree: the shape invariant plus the (weak) key ordering. */
  ghost predicate IsAvl(t: AvlTree) {
    Ordered(t) && Wf(t)
  }

  /* ---------- Rotations and rebalancing ---------- */

  /** `_rotate_left(z)`: the right child `y` becomes the root and `z` takes
      `y`'s left subtree as its right one; `z`'s height is recomputed first,
      then `y`'s. */
  function RotateLeft(z: AvlTree): AvlTree
    requires z.Node? && z.right.Node?
  {
    var y := z.right;
    Mk(Mk(z.left, z.key, y.left), y.key, y.right)
  }

  /** `_rotate_right(z)`: the mirror image of `RotateLeft`. */
  function RotateRight(z: AvlTree): AvlTree
    requires z.Node? && z.left.Node?
  {
    var y := z.left;
    Mk(y.left, y.key, Mk(y.right, z.key, z.right))
  }

  /** `_balance`: a left-heavy node (factor > 1) is rotated right, after a
      left rotation of its left child when that child leans right (LR);
      the right-heavy case mirrors it (RR, RL). Other nodes are returned as
      they are. A factor above 1 forces a non-empty left child, and a negative
      factor of that child forces it a non-empty right child. */
  function Balance(t: AvlTree): AvlTree
    requires t.Node?
  {
    var bf := BalanceFactor(t);
    if bf > 1 then
      var t1 := if BalanceFactor(t.left) < 0 then t.(left := RotateLeft(t.left)) else t;
      RotateRight(t1)
    else if bf < -1 then
      var t1 := if BalanceFactor(t.right) > 0 then t.(right := RotateRight(t.right)) else t;
      RotateLeft(t1)
    else t
  }

  /* ---------- Insertion and deletion ---------- */

  /** `_insert`: BST insertion (ties go right), then height update and
      rebalancing of every node on the path. */
  function Insert(t: AvlTree, k: int): AvlTree {
    match t
    case Leaf => Node(Leaf, k, Leaf, 1)
    case Node(l, x, r, _) =>
      if k < x then Balance(Mk(Insert(l, k), x, r))
      else Balance(Mk(l, x, Insert(r, k)))
  }

  /** `_delete`: the three-case BST deletion; a node with at most one child is
      replaced by that child as it stands, a node with two children takes its
      successor's key. Every other node on the path is updated and rebalanced. */
  function Delete(t: AvlTree, k: int): AvlTree {
    match t
    case Leaf => Leaf
    case Node(l, x, r, _) =>
      if k < x then Balance(Mk(Delete(l, k), x, r))
      else if k > x then Balance(Mk(l, x, Delete(r, k)))
      else if l.Leaf? then r
      else if r.Leaf? then l
      else
        var m := MinValueNode(r).key;
        Balance(Mk(l, m, Delete(r, m)))
  }

  function InsertAll(t: AvlTree, ks: seq<int>): AvlTree
    decreases |ks|
  {
    if ks == [] then t else InsertAll(Insert(t, ks[0]), ks[1..])
  }

  /* ---------- Rotations keep the in-order sequence ---------- */

  /** Rotating left keeps the in-order sequence; both rebuilt nodes get
      `1 + max` of their children's cached heights. */
  lemma RotateLeftInOrder(z: AvlTree)
    requires z.Node? && z.right.Node?
    ensures InOrder(RotateLeft(z)) == InOrder(z)
    ensures HeightsOk(z.left) && HeightsOk(z.right) ==> HeightsOk(RotateLeft(z))
  {
    var y := z.right;
    Regroup(InOrder(z.left), z.key, InOrder(y.left), y.key, InOrder(y.right));
  }

  lemma RotateRightInOrder(z: AvlTree)
    requires z.Node? && z.left.Node?
    ensures InOrder(RotateRight(z)) == InOrder(z)
    ensures HeightsOk(z.left) && HeightsOk(z.right) ==> HeightsOk(RotateRight(z))
  {
    var y := z.left;
    Regroup(InOrder(y.left), y.key, InOrder(y.right), z.key, InOrder(z.right));
  }

  /** Rebalancing never reorders keys. */
  lemma BalanceInOrder(t: AvlTree)
    requires t.Node?
    ensures InOrder(Balance(t)) == InOrder(t)
  {
    var bf := BalanceFactor(t);
    if bf > 1 {
      if BalanceFactor(t.left) < 0 {
        RotateLeftInOrder(t.left);
        RotateRightInOrder(t.(left := RotateLeft(t.left)));
      } else {
        RotateRightInOrder(t);
      }
    } else if bf < -1 {
      if BalanceFactor(t.right) > 0 {
        RotateRightInOrder(t.right);
        RotateLeftInOrder(t.(right := RotateRight(t.right)));
      } else {
        RotateLeftInOrder(t);
      }
    }
  }

  /** Rebalancing keeps the stored keys and the ordering. */
  lemma BalanceKeepsKeys(t: AvlTree)
    requires t.Node?
    ensures Keys(Balance(t)) == Keys(t)
    ensures Ordered(Balance(t)) <==> Ordered(t)
  {
    BalanceInOrder(t);
    SameInOrder(Balance(t), t);
  }

  /* ---------- Rebalancing restores the shape ---------- */

  /** Left-heavy by two, left child not leaning right: one right rotation. */
  lemma BalanceLL(l: AvlTree, k: int, r: AvlTree)
    requires Wf(l) && Wf(r) && H(l) == H(r) + 2 && BalanceFactor(l) >= 0
    ensures Wf(Balance(Mk(l, k, r)))
    ensures H(l) <= H(Balance(Mk(l, k, r))) <= H(l) + 1
  {
    var inner := Mk(l.right, k, r);
    assert Balance(Mk(l, k, r)) == Mk(l.left, l.key, inner);
  }

  /** Left-heavy by two, left child leaning right: left then right rotation. */
  lemma BalanceLR(l: AvlTree, k: int, r: AvlTree)
    requires Wf(l) && Wf(r) && H(l) == H(r) + 2 && BalanceFactor(l) < 0
    ensures Wf(Balance(Mk(l, k, r)))
    ensures H(Balance(Mk(l, k, r))) == H(l)
  {
    var b := l.right;
    var t := Mk(l, k, r);
    assert Wf(l.left) && Wf(b) && H(b) == H(l) - 1;
    assert Wf(b.left) && Wf(b.right) && H(b) == 1 + Max(H(b.left), H(b.right));
    var x := Mk(l.left, l.key, b.left);
    var y := Mk(b.right, k, r);
    assert Wf(x) && Wf(y) && H(x) == H(r) + 1 && H(y) == H(r) + 1;
    assert RotateLeft(l) == Mk(x, b.key, b.right);
    assert Balance(t) == Mk(x, b.key, y);
  }

  /** Right-heavy by two, right child not leaning left: one left rotation. */
  lemma BalanceRR(l: AvlTree, k: int, r: AvlTree)
    requires Wf(l) && Wf(r) && H(r) == H(l) + 2 && BalanceFactor(r) <= 0
    ensures Wf(Balance(Mk(l, k, r)))
    ensures H(r) <= H(Balance(Mk(l, k, r))) <= H(r) + 1
  {
    var inner := Mk(l, k, r.left);
    assert Balance(Mk(l, k, r)) == Mk(inner, r.key, r.right);
  }

  /** Right-heavy by two, right child leaning left: right then left rotation. */
  lemma BalanceRL(l: AvlTree, k: int, r: AvlTree)
    requires Wf(l) && Wf(r) && H(r) == H(l) + 2 && BalanceFactor(r) > 0
    ensures Wf(Balance(Mk(l, k, r)))
    ensures H(Balance(Mk(l, k, r))) == H(r)
  {
    var b := r.left;
    var t := Mk(l, k, r);
    assert Wf(r.right) && Wf(b) && H(b) == H(r) - 1;
    assert Wf(b.left) && Wf(b.right) && H(b) == 1 + Max(H(b.left), H(b.right));
    var x := Mk(l, k, b.left);
    var y := Mk(b.right, r.key, r.right);
    assert Wf(x) && Wf(y) && H(x) == H(l) + 1 && H(y) == H(l) + 1;
    assert RotateRight(r) == Mk(b.left, b.key, y);
    assert Balance(t) == Mk(x, b.key, y);
  }

  /** Joining two AVL subtrees whose heights differ by at most two and
      rebalancing gives an AVL shape whose height is the joined height `p`
      or one less; a join that is already balanced is left untouched. */
  lemma BalanceFixes(l: AvlTree, k: int, r: AvlTree)
    requires Wf(l) && Wf(r) && -2 <= H(l) - H(r) <= 2
    ensures Wf(Balance(Mk(l, k, r)))
    ensures H(Mk(l, k, r)) - 1 <= H(Balance(Mk(l, k, r))) <= H(Mk(l, k, r))
    ensures -1 <= H(l) - H(r) <= 1 ==> Balance(Mk(l, k, r)) == Mk(l, k, r)
  {
    if H(l) == H(r) + 2 {
      if BalanceFactor(l) < 0 {
        BalanceLR(l, k, r);
      } else {
        BalanceLL(l, k, r);
      }
    } else if H(r) == H(l) + 2 {
      if BalanceFactor(r) > 0 {
        BalanceRL(l, k, r);
      } else {
        BalanceRR(l, k, r);
      }
    }
  }

  /** Insertion keeps the AVL shape and raises the height by at most one. */
  lemma {:induction false} InsertShape(t: AvlTree, k: int)
    requires Wf(t)
    ensures Wf(Insert(t, k))
    ensures H(t) <= H(Insert(t, k)) <= H(t) + 1
  {
    match t
    case Leaf =>
    case Node(l, x, r, _) =>
      if k < x {
        InsertShape(l, k);
        BalanceFixes(Insert(l, k), x, r);
      } else {
        InsertShape(r, k);
        BalanceFixes(l, x, Insert(r, k));
      }
  }

  /** Deletion keeps the AVL shape and lowers the height by at most one. */
  lemma {:induction false} DeleteShape(t: AvlTree, k: int)
    requires Wf(t)
    ensures Wf(Delete(t, k))
    ensures H(t) - 1 <= H(Delete(t, k)) <= H(t)
  {
    match t
    case Leaf =>
    case Node(l, x, r, _) =>
      if k < x {
        DeleteShape(l, k);
        BalanceFixes(Delete(l, k), x, r);
      } else if k > x {
        DeleteShape(r, k);
        BalanceFixes(l, x, Delete(r, k));
      } else if l.Leaf? || r.Leaf? {
      } else {
        var m := MinValueNode(r).key;
        DeleteShape(r, m);
        BalanceFixes(l, m, Delete(r, m));
      }
  }

  /* ---------- Keys and ordering ---------- */

  /** Insertion adds exactly one occurrence of the key. */
  lemma {:induction false} InsertKeys(t: AvlTree, k: int)
    ensures Keys(Insert(t, k)) == Keys(t) + multiset{k}
  {
    if t.Node? {
      if k < t.key {
        InsertKeys(t.left, k);
        InsertLeftCase(t, k);
      } else {
        InsertKeys(t.right, k);
        InsertRightCase(t, k);
      }
    }
  }

  /** Insertion keeps the in-order sequence non-decreasing. */
  lemma {:induction false} InsertOrdered(t: AvlTree, k: int)
    requires Ordered(t)
    ensures Ordered(Insert(t, k))
  {
    if t.Node? {
      if k < t.key {
        InsertOrdered(t.left, k);
        InsertKeys(t.left, k);
        InsertLeftCase(t, k);
      } else {
        InsertOrdered(t.right, k);
        InsertKeys(t.right, k);
        InsertRightCase(t, k);
      }
    }
  }

  lemma InsertLeftCase(t: AvlTree, k: int)
    requires t.Node? && k < t.key
    requires Keys(Insert(t.left, k)) == Keys(t.left) + multiset{k}
    ensures Keys(Insert(t, k)) == Keys(t) + multiset{k}
    ensures Ordered(t) && Ordered(Insert(t.left, k)) ==> Ordered(Insert(t, k))
  {
    var l' := Insert(t.left, k);
    var u := Mk(l', t.key, t.right);
    BalanceKeepsKeys(u);
    AddToLeft(Keys(t.left), t.key, Keys(t.right), k);
    if Ordered(t) && Ordered(l') {
      JoinInsertedLeft(t, k, l');
    }
    assert Insert(t, k) == Balance(u);
  }

  lemma InsertRightCase(t: AvlTree, k: int)
    requires t.Node? && t.key <= k
    requires Keys(Insert(t.right, k)) == Keys(t.right) + multiset{k}
    ensures Keys(Insert(t, k)) == Keys(t) + multiset{k}
    ensures Ordered(t) && Ordered(Insert(t.right, k)) ==> Ordered(Insert(t, k))
  {
    var r' := Insert(t.right, k);
    var u := Mk(t.left, t.key, r');
    BalanceKeepsKeys(u);
    AddToRight(Keys(t.left), t.key, Keys(t.right), k);
    if Ordered(t) && Ordered(r') {
      JoinInsertedRight(t, k, r');
    }
    assert Insert(t, k) == Balance(u);
  }

  lemma JoinInsertedLeft(t: AvlTree, k: int, l': AvlTree)
    requires Ordered(t) && t.Node? && k < t.key
    requires Ordered(l') && Keys(l') == Keys(t.left) + multiset{k}
    ensures Ordered(Mk(l', t.key, t.right))
  {
    BoundsOfAdded(l', t.left, k, t.key);
  }

  lemma JoinInsertedRight(t: AvlTree, k: int, r': AvlTree)
    requires Ordered(t) && t.Node? && t.key <= k
    requires Ordered(r') && Keys(r') == Keys(t.right) + multiset{k}
    ensures Ordered(Mk(t.left, t.key, r'))
  {
    BoundsOfAdded(r', t.right, k, t.key);
  }

  /** In an ordered tree, deletion removes one occurrence of a present key
      (none of an absent one) and keeps the tree ordered. */
  lemma {:induction false} DeleteOrdered(t: AvlTree, k: int)
    requires Ordered(t)
    ensures Ordered(Delete(t, k))
    ensures Keys(Delete(t, k)) == Keys(t) - multiset{k}
  {
    match t
    case Leaf =>
    case Node(l, x, r, _) =>
      if k < x {
        DeleteOrdered(l, k);
        DeleteLeftCase(t, k);
      } else if k > x {
        DeleteOrdered(r, k);
        DeleteRightCase(t, k);
      } else if l.Leaf? || r.Leaf? {
      } else {
        var m := MinValueNode(r).key;
        DeleteOrdered(r, m);
        DeleteSuccessorCase(t, m);
      }
  }

  lemma DeleteLeftCase(t: AvlTree, k: int)
    requires Ordered(t) && t.Node? && k < t.key
    requires Ordered(Delete(t.left, k)) && Keys(Delete(t.left, k)) == Keys(t.left) - multiset{k}
    ensures Ordered(Delete(t, k))
    ensures Keys(Delete(t, k)) == Keys(t) - multiset{k}
  {
    var u := Mk(Delete(t.left, k), t.key, t.right);
    JoinDeletedLeft(t, k, Delete(t.left, k));
    BalanceKeepsKeys(u);
    assert Delete(t, k) == Balance(u);
  }

  lemma DeleteRightCase(t: AvlTree, k: int)
    requires Ordered(t) && t.Node? && k > t.key
    requires Ordered(Delete(t.right, k)) && Keys(Delete(t.right, k)) == Keys(t.right) - multiset{k}
    ensures Ordered(Delete(t, k))
    ensures Keys(Delete(t, k)) == Keys(t) - multiset{k}
  {
    var u := Mk(t.left, t.key, Delete(t.right, k));
    JoinDeletedRight(t, k, Delete(t.right, k));
    BalanceKeepsKeys(u);
    assert Delete(t, k) == Balance(u);
  }

  lemma DeleteSuccessorCase(t: AvlTree, m: int)
    requires Ordered(t) && t.Node? && t.left.Node? && t.right.Node?
    requires m == MinValueNode(t.right).key
    requires Ordered(Delete(t.right, m)) && Keys(Delete(t.right, m)) == Keys(t.right) - multiset{m}
    ensures Ordered(Delete(t, t.key))
    ensures Keys(Delete(t, t.key)) == Keys(t) - multiset{t.key}
  {
    var u := Mk(t.left, m, Delete(t.right, m));
    JoinSuccessor(t, m, Delete(t.right, m));
    BalanceKeepsKeys(u);
    assert Delete(t, t.key) == Balance(u);
  }

  lemma JoinDeletedLeft(t: AvlTree, k: int, l': AvlTree)
    requires Ordered(t) && t.Node? && k < t.key
    requires Ordered(l') && Keys(l') == Keys(t.left) - multiset{k}
    ensures Ordered(Mk(l', t.key, t.right))
    ensures Keys(Mk(l', t.key, t.right)) == Keys(t) - multiset{k}
  {
    BoundsOfRemoved(l', t.left, k, t.key);
    OutsideBound(t.right, k, t.key);
    DropFromLeft(Keys(t.left), t.key, Keys(t.right), k);
  }

  lemma JoinDeletedRight(t: AvlTree, k: int, r': AvlTree)
    requires Ordered(t) && t.Node? && k > t.key
    requires Ordered(r') && Keys(r') == Keys(t.right) - multiset{k}
    ensures Ordered(Mk(t.left, t.key, r'))
    ensures Keys(Mk(t.left, t.key, r')) == Keys(t) - multiset{k}
  {
    BoundsOfRemoved(r', t.right, k, t.key);
    OutsideBound(t.left, k, t.key);
    DropFromRight(Keys(t.left), t.key, Keys(t.right), k);
  }

  /** The two-child case: the successor key `m` replaces the deleted key and
      one occurrence of `m` leaves the right subtree. */
  lemma JoinSuccessor(t: AvlTree, m: int, r': AvlTree)
    requires Ordered(t) && t.Node? && t.right.Node?
    requires m == MinValueNode(t.right).key
    requires Ordered(r') && Keys(r') == Keys(t.right) - multiset{m}
    ensures Ordered(Mk(t.left, m, r'))
    ensures Keys(Mk(t.left, m, r')) == Keys(t) - multiset{t.key}
  {
    MinValueNodeIsLeast(t.right);
    BoundsOfRemoved(r', t.right, m, m);
    BoundOfKey(t.right, m, t.key);
    AtMostWeaken(t.left, t.key, m);
    ReplaceRoot(Keys(t.left), t.key, Keys(t.right), m);
  }

  /* ---------- The AVL invariant, end to end ---------- */

  /** `insert` keeps an AVL tree an AVL tree holding one more occurrence of the key. */
  lemma InsertKeepsAvl(t: AvlTree, k: int)
    requires IsAvl(t)
    ensures IsAvl(Insert(t, k))
    ensures Keys(Insert(t, k)) == Keys(t) + multiset{k}
  {
    InsertShape(t, k);
    InsertOrdered(t, k);
    InsertKeys(t, k);
  }

  /** `delete` keeps an AVL tree an AVL tree holding one occurrence fewer of
      the key (unchanged keys when it is absent). */
  lemma DeleteKeepsAvl(t: AvlTree, k: int)
    requires IsAvl(t)
    ensures IsAvl(Delete(t, k))
    ensures Keys(Delete(t, k)) == Keys(t) - multiset{k}
  {
    DeleteShape(t, k);
    DeleteOrdered(t, k);
  }

  /** Deleting an absent key from an AVL tree leaves it exactly as it was:
      every recomputed height equals the cached one and no node needs a
      rotation. */
  lemma {:induction false} DeleteAbsent(t: AvlTree, k: int)
    requires Wf(t) && k !in Keys(t)
    ensures Delete(t, k) == t
  {
    match t
    case Leaf =>
    case Node(l, x, r, _) =>
      assert k != x && k !in Keys(l) && k !in Keys(r);
      Untouched(t);
      if k < x {
        DeleteAbsent(l, k);
      } else {
        DeleteAbsent(r, k);
      }
  }

  /** Rebuilding a node of an AVL tree from its own parts gives it back. */
  lemma Untouched(t: AvlTree)
    requires Wf(t) && t.Node?
    ensures Balance(Mk(t.left, t.key, t.right)) == t
  {
    assert Mk(t.left, t.key, t.right) == t;
  }

  /** Insert-then-delete restores the in-order sequence of any ordered tree. */
  lemma InsertDeleteRoundTrip(t: AvlTree, k: int)
    requires Ordered(t)
    ensures InOrder(Delete(Insert(t, k), k)) == InOrder(t)
  {
    var i := Insert(t, k);
    InsertKeys(t, k);
    InsertOrdered(t, k);
    DeleteOrdered(i, k);
    AddRemove(Keys(t), k);
    OrderedSameKeys(Delete(i, k), t);
  }

  /* ---------- Heights ---------- */

  /** `height()` reads the root's cached height; with correct caches that is
      the recursive height. */
  lemma {:induction false} CachedHeightIsHeight(t: AvlTree)
    requires HeightsOk(t)
    ensures H(t) == Height(t)
  {
    if t.Node? {
      CachedHeightIsHeight(t.left);
      CachedHeightIsHeight(t.right);
    }
  }

  /** An AVL tree of height `h` holds at least 2^((h+1)/2) - 1 keys, so its
      height is at most about twice the binary logarithm of its size. */
  lemma {:induction false} HeightLogarithmic(t: AvlTree)
    requires Wf(t)
    ensures Pow2((H(t) + 1) / 2) <= Size(t) + 1
  {
    if t.Node? {
      HeightLogarithmic(t.left);
      HeightLogarithmic(t.right);
      MinimalSizeStep(H(t.left), H(t.right), Size(t.left) + 1, Size(t.right) + 1);
    }
  }

  /** The arithmetic step: children of heights `a` and `b` differing by at
      most one, each at least as large as the bound for its height, add up
      to at least the bound for their parent. */
  lemma MinimalSizeStep(a: nat, b: nat, sa: int, sb: int)
    requires -1 <= a - b <= 1
    requires Pow2((a + 1) / 2) <= sa && Pow2((b + 1) / 2) <= sb
    ensures Pow2((1 + Max(a, b) + 1) / 2) <= sa + sb
  {
    var h := 1 + Max(a, b);
    var lo := (h - 1) / 2;
    Pow2Mono(lo, (a + 1) / 2);
    Pow2Mono(lo, (b + 1) / 2);
    assert (h + 1) / 2 == lo + 1;
  }

  /* ---------- Examples ---------- */

  /** Ascending keys 1, 2, 3 trigger the right-right case: one left rotation
      makes 2 the root. */
  lemma AscendingRotates()
    ensures InsertAll(Leaf, [1, 2, 3]) == Node(Node(Leaf, 1, Leaf, 1), 2, Node(Leaf, 3, Leaf, 1), 2)
  {
    var t1 := Node(Leaf, 1, Leaf, 1);
    var t2 := Node(Leaf, 1, Node(Leaf, 2, Leaf, 1), 2);
    assert Insert(Leaf, 1) == t1;
    assert Insert(t1, 2) == t2;
    assert Insert(t2, 3) == Node(Node(Leaf, 1, Leaf, 1), 2, Node(Leaf, 3, Leaf, 1), 2);
    var ks := [1, 2, 3];
    assert InsertAll(Leaf, ks) == InsertAll(t1, ks[1..]);
    assert InsertAll(t1, ks[1..]) == InsertAll(t2, ks[2..]);
  }

  /** With duplicate keys a rotation can move an equal key into a left
      subtree: inserting 1 three times gives an AVL tree that keeps the weak
      ordering but not the strict "left < key" one. */
  lemma DuplicatesBreakStrictOrder()
    ensures IsAvl(InsertAll(Leaf, [1, 1, 1]))
    ensures !SearchTree(InsertAll(Leaf, [1, 1, 1]))
  {
    var n := Node(Leaf, 1, Leaf, 1);
    var t2 := Node(Leaf, 1, n, 2);
    var t3 := Node(n, 1, n, 2);
    assert Insert(Leaf, 1) == n;
    assert Insert(n, 1) == t2;
    assert Insert(t2, 1) == t3;
    var ks := [1, 1, 1];
    assert InsertAll(Leaf, ks) == InsertAll(n, ks[1..]);
    assert InsertAll(n, ks[1..]) == InsertAll(t2, ks[2..]);
    assert InsertAll(t2, ks[2..]) == t3;
    assert !AllBelow(n, 1);
  }
}
