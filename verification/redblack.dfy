/**
 The Red-Black tree (`RedBlackTree`, laba2.py).

 Nodes carry a colour in the tag; `Leaf` is the shared black `NIL` sentinel.
 The program descends iteratively to the attach point, links in a red node
 and then walks back up with `_fix_insert`, which looks at the new node's
 parent and uncle. Here the walk back up is the return path of a recursive
 descent: on the way out of every grandparent, `FixLeft`/`FixRight` perform
 the repair the loop performs when its current node is a grandchild of that
 node. The parent pointers of the program are not modelled; a node's parent
 is the node the recursion came from.
 */
module RedBlack {
  import opened Trees

  datatype Color = Red | Black

  type RbTree = Tree<Color>

  predicate IsRed(t: RbTree) {
    t.Node? && t.tag == Red
  }

  /** Paint the root black (`NIL` is black already). */
  function Blacken(t: RbTree): RbTree {
    if t.Leaf? then t else t.(tag := Black)
  }

  /** Black nodes on the leftmost root-to-`NIL` path. */
  function BH(t: RbTree): nat {
    match t
    case Leaf => 0
    case Node(l, _, _, c) => BH(l) + (if c == Black then 1 else 0)
  }

  /** Both children of every node have the same black height. */
  ghost predicate BlackBalanced(t: RbTree) {
    t.Leaf? || (BH(t.left) == BH(t.right) && BlackBalanced(t.left) && BlackBalanced(t.right))
  }

  /** No red node has a red child. */
  ghost predicate NoRedRed(t: RbTree) {
    t.Leaf? || ((IsRed(t) ==> !IsRed(t.left) && !IsRed(t.right)) && NoRedRed(t.left) && NoRedRed(t.right))
  }

  /** The Red-Black invariant as the program keeps it: ordered, black root,
      no red-red edge, equal black heights. */
  ghost predicate IsRedBlack(t: RbTree) {
    Ordered(t) && !IsRed(t) && NoRedRed(t) && BlackBalanced(t)
  }

  /** Every root-to-`NIL` path of `t` passes exactly `n` black nodes. */
  ghost predicate EveryPathBlack(t: RbTree, n: int) {
    match t
    case Leaf => n == 0
    case Node(l, _, r, c) =>
      var b := if c == Black then 1 else 0;
      EveryPathBlack(l, n - b) && EveryPathBlack(r, n - b)
  }

  /** Equal black heights below every node is the same as every path
      counting the same number of black nodes. */
  lemma {:induction false} BlackBalancedPaths(t: RbTree, n: int)
    ensures BlackBalanced(t) && n == BH(t) <==> EveryPathBlack(t, n)
  {
    if t.Node? {
      var b := if t.tag == Black then 1 else 0;
      BlackBalancedPaths(t.left, n - b);
      BlackBalancedPaths(t.right, n - b);
      BlackBalancedPaths(t.right, BH(t.left));
    }
  }

  /* ---------- Rotations ---------- */

  /** `_left_rotate(x)`: the right child `y` takes `x`'s place and `x`
      becomes `y`'s left child, adopting `y`'s old left subtree. Colours are
      not touched. */
  function LeftRotate(x: RbTree): RbTree
    requires x.Node? && x.right.Node?
  {
    var y := x.right;
    y.(left := x.(right := y.left))
  }

  /** `_right_rotate(y)`: the mirror image of `LeftRotate`. */
  function RightRotate(y: RbTree): RbTree
    requires y.Node? && y.left.Node?
  {
    var x := y.left;
    x.(right := y.(left := x.right))
  }

  /* ---------- Insertion ---------- */

  /** The repair at grandparent `g` after an insertion into its left subtree
      along the path of key `k`: when the parent `p` and the node below it on
      the path are both red, a red uncle means recolouring (parent and uncle
      black, grandparent red); a black uncle means a rotation, preceded by a
      left rotation of the parent when the red node is its right child. */
  function FixLeft(g: RbTree, k: int): RbTree
    requires g.Node?
  {
    var p := g.left;
    if IsRed(p) && IsRed(if k < p.key then p.left else p.right) then
      if IsRed(g.right) then
        g.(left := Blacken(p), right := Blacken(g.right), tag := Red)
      else
        var p' := if k < p.key then p else LeftRotate(p);
        RightRotate(g.(left := Blacken(p'), tag := Red))
    else g
  }

  /** The mirror image of `FixLeft`, for an insertion into the right subtree. */
  function FixRight(g: RbTree, k: int): RbTree
    requires g.Node?
  {
    var p := g.right;
    if IsRed(p) && IsRed(if k < p.key then p.left else p.right) then
      if IsRed(g.left) then
        g.(left := Blacken(g.left), right := Blacken(p), tag := Red)
      else
        var p' := if k < p.key then RightRotate(p) else p;
        LeftRotate(g.(right := Blacken(p'), tag := Red))
    else g
  }

  /** Descent (`node.key < current.key` goes left, otherwise right), a red node
      at the `NIL` reached, and the repairs on the way back up. */
  function Ins(t: RbTree, k: int): RbTree {
    match t
    case Leaf => Node(Leaf, k, Leaf, Red)
    case Node(l, x, r, _) =>
      if k < x then FixLeft(t.(left := Ins(l, k)), k)
      else FixRight(t.(right := Ins(r, k)), k)
  }

  /** `insert`: insert and fix up, then `self.root.color = "black"`. */
  function Insert(t: RbTree, k: int): RbTree {
    Blacken(Ins(t, k))
  }

  function InsertAll(t: RbTree, ks: seq<int>): RbTree
    decreases |ks|
  {
    if ks == [] then t else InsertAll(Insert(t, ks[0]), ks[1..])
  }

  /* ---------- Keys and ordering ---------- */

  lemma LeftRotateInOrder(x: RbTree)
    requires x.Node? && x.right.Node?
    ensures InOrder(LeftRotate(x)) == InOrder(x)
  {
    var y := x.right;
    Regroup(InOrder(x.left), x.key, InOrder(y.left), y.key, InOrder(y.right));
  }

  lemma RightRotateInOrder(y: RbTree)
    requires y.Node? && y.left.Node?
    ensures InOrder(RightRotate(y)) == InOrder(y)
  {
    var x := y.left;
    Regroup(InOrder(x.left), x.key, InOrder(x.right), y.key, InOrder(y.right));
  }

  /** Recolouring and rotating never reorder keys. */
  lemma FixLeftInOrder(g: RbTree, k: int)
    requires g.Node?
    ensures InOrder(FixLeft(g, k)) == InOrder(g)
  {
    var p := g.left;
    if IsRed(p) && IsRed(if k < p.key then p.left else p.right) && !IsRed(g.right) {
      var p' := if k < p.key then p else LeftRotate(p);
      if !(k < p.key) {
        LeftRotateInOrder(p);
      }
      RightRotateInOrder(g.(left := Blacken(p'), tag := Red));
    }
  }

  lemma FixRightInOrder(g: RbTree, k: int)
    requires g.Node?
    ensures InOrder(FixRight(g, k)) == InOrder(g)
  {
    var p := g.right;
    if IsRed(p) && IsRed(if k < p.key then p.left else p.right) && !IsRed(g.left) {
      var p' := if k < p.key then RightRotate(p) else p;
      if k < p.key {
        RightRotateInOrder(p);
      }
      LeftRotateInOrder(g.(right := Blacken(p'), tag := Red));
    }
  }

  /** Insertion and its repairs add exactly one occurrence of the key. */
  lemma {:induction false} InsKeys(t: RbTree, k: int)
    ensures Keys(Ins(t, k)) == Keys(t) + multiset{k}
  {
    match t
    case Leaf =>
    case Node(l, x, r, _) =>
      if k < x {
        InsKeys(l, k);
        InsKeysLeft(t, k);
      } else {
        InsKeys(r, k);
        InsKeysRight(t, k);
      }
  }

  lemma InsKeysLeft(t: RbTree, k: int)
    requires t.Node? && k < t.key
    requires Keys(Ins(t.left, k)) == Keys(t.left) + multiset{k}
    ensures Keys(Ins(t, k)) == Keys(t) + multiset{k}
  {
    var g := t.(left := Ins(t.left, k));
    assert Ins(t, k) == FixLeft(g, k);
    FixLeftInOrder(g, k);
    SameInOrder(FixLeft(g, k), g);
    AddToLeft(Keys(t.left), t.key, Keys(t.right), k);
  }

  lemma InsKeysRight(t: RbTree, k: int)
    requires t.Node? && t.key <= k
    requires Keys(Ins(t.right, k)) == Keys(t.right) + multiset{k}
    ensures Keys(Ins(t, k)) == Keys(t) + multiset{k}
  {
    var g := t.(right := Ins(t.right, k));
    assert Ins(t, k) == FixRight(g, k);
    FixRightInOrder(g, k);
    SameInOrder(FixRight(g, k), g);
    AddToRight(Keys(t.left), t.key, Keys(t.right), k);
  }

  lemma {:induction false} InsOrdered(t: RbTree, k: int)
    requires Ordered(t)
    ensures Ordered(Ins(t, k))
  {
    match t
    case Leaf =>
    case Node(l, x, r, _) =>
      if k < x {
        InsOrdered(l, k);
        InsLeftOrdered(t, k);
      } else {
        InsOrdered(r, k);
        InsRightOrdered(t, k);
      }
  }

  lemma InsLeftOrdered(t: RbTree, k: int)
    requires Ordered(t) && t.Node? && k < t.key && Ordered(Ins(t.left, k))
    ensures Ordered(Ins(t, k))
  {
    var l' := Ins(t.left, k);
    var g := t.(left := l');
    assert Ins(t, k) == FixLeft(g, k);
    InsKeys(t.left, k);
    BoundsOfAdded(l', t.left, k, t.key);
    assert Ordered(g);
    FixLeftInOrder(g, k);
    SameInOrder(FixLeft(g, k), g);
  }

  lemma InsRightOrdered(t: RbTree, k: int)
    requires Ordered(t) && t.Node? && t.key <= k && Ordered(Ins(t.right, k))
    ensures Ordered(Ins(t, k))
  {
    var r' := Ins(t.right, k);
    var g := t.(right := r');
    assert Ins(t, k) == FixRight(g, k);
    InsKeys(t.right, k);
    BoundsOfAdded(r', t.right, k, t.key);
    assert Ordered(g);
    FixRightInOrder(g, k);
    SameInOrder(FixRight(g, k), g);
  }

  /* ---------- Colour invariants ---------- */

  /** What insertion below `t` hands back to `t`'s parent. The black height
      never changes. Below a black (or absent) node the result has no red-red
      edge at all; below a red node the result is that same red node, and
      the only red-red edge allowed is between it and its child on the
      insertion path, which the repair one level up removes. */
  ghost predicate InsOk(t: RbTree, k: int, r: RbTree) {
    && r.Node?
    && BlackBalanced(r)
    && BH(r) == BH(t)
    && (!IsRed(t) ==> NoRedRed(r))
    && (IsRed(t) ==>
          && IsRed(r) && r.key == t.key
          && NoRedRed(r.left) && NoRedRed(r.right)
          && !IsRed(if k < r.key then r.right else r.left))
  }

  /** Insertion below a red-black shaped tree keeps the black height and
      leaves at most the one red-red edge that the next repair removes. */
  lemma {:induction false} InsInvariant(t: RbTree, k: int)
    requires NoRedRed(t) && BlackBalanced(t)
    ensures InsOk(t, k, Ins(t, k))
  {
    match t
    case Leaf =>
    case Node(l, x, r, c) =>
      if k < x {
        InsInvariant(l, k);
        if IsRed(t) {
          InsBelowRedLeft(t, k);
        } else {
          FixLeftOk(t, k);
        }
      } else {
        InsInvariant(r, k);
        if IsRed(t) {
          InsBelowRedRight(t, k);
        } else {
          FixRightOk(t, k);
        }
      }
  }

  /** Below a red node no repair happens: its child is black, so the child's
      result has no red-red edge. */
  lemma InsBelowRedLeft(t: RbTree, k: int)
    requires NoRedRed(t) && BlackBalanced(t) && IsRed(t) && k < t.key
    requires InsOk(t.left, k, Ins(t.left, k))
    ensures InsOk(t, k, Ins(t, k))
  {
    var g := t.(left := Ins(t.left, k));
    assert Ins(t, k) == FixLeft(g, k);
    assert FixLeft(g, k) == g;
  }

  lemma InsBelowRedRight(t: RbTree, k: int)
    requires NoRedRed(t) && BlackBalanced(t) && IsRed(t) && t.key <= k
    requires InsOk(t.right, k, Ins(t.right, k))
    ensures InsOk(t, k, Ins(t, k))
  {
    var g := t.(right := Ins(t.right, k));
    assert Ins(t, k) == FixRight(g, k);
    assert FixRight(g, k) == g;
  }

  /** The repair at a black grandparent after insertion on its left. */
  lemma FixLeftOk(t: RbTree, k: int)
    requires NoRedRed(t) && BlackBalanced(t) && t.Node? && !IsRed(t) && k < t.key
    requires InsOk(t.left, k, Ins(t.left, k))
    ensures InsOk(t, k, Ins(t, k))
  {
    var p := Ins(t.left, k);
    var g := t.(left := p);
    var u := t.right;
    assert Ins(t, k) == FixLeft(g, k);
    if IsRed(p) && IsRed(if k < p.key then p.left else p.right) {
      if IsRed(u) {
        FixLeftRecolor(t, k);
      } else if k < p.key {
        FixLeftOuter(t, k);
      } else {
        FixLeftInner(t, k);
      }
    }
  }

  /** Red uncle: recolour; the grandparent turns red over two black children. */
  lemma FixLeftRecolor(t: RbTree, k: int)
    requires NoRedRed(t) && BlackBalanced(t) && t.Node? && !IsRed(t) && k < t.key
    requires InsOk(t.left, k, Ins(t.left, k))
    requires IsRed(Ins(t.left, k)) && IsRed(t.right)
    requires var p := Ins(t.left, k); IsRed(if k < p.key then p.left else p.right)
    ensures InsOk(t, k, Ins(t, k))
  {
    var p := Ins(t.left, k);
    var g := t.(left := p);
    var r := g.(left := Blacken(p), right := Blacken(t.right), tag := Red);
    assert Ins(t, k) == r;
  }

  /** Black uncle, red node on the outer side: one right rotation. */
  lemma FixLeftOuter(t: RbTree, k: int)
    requires NoRedRed(t) && BlackBalanced(t) && t.Node? && !IsRed(t) && k < t.key
    requires InsOk(t.left, k, Ins(t.left, k))
    requires IsRed(Ins(t.left, k)) && !IsRed(t.right)
    requires var p := Ins(t.left, k); k < p.key && IsRed(p.left)
    ensures InsOk(t, k, Ins(t, k))
  {
    var p := Ins(t.left, k);
    var lower := Node(p.right, t.key, t.right, Red);
    assert Ins(t, k) == Node(p.left, p.key, lower, Black);
  }

  /** Black uncle, red node on the inner side: left rotation of the parent,
      then right rotation of the grandparent. */
  lemma FixLeftInner(t: RbTree, k: int)
    requires NoRedRed(t) && BlackBalanced(t) && t.Node? && !IsRed(t) && k < t.key
    requires InsOk(t.left, k, Ins(t.left, k))
    requires IsRed(Ins(t.left, k)) && !IsRed(t.right)
    requires var p := Ins(t.left, k); !(k < p.key) && IsRed(p.right)
    ensures InsOk(t, k, Ins(t, k))
  {
    var p := Ins(t.left, k);
    var n := p.right;
    assert BlackBalanced(p) && BlackBalanced(n);
    assert BH(n.left) == BH(n.right) == BH(n) == BH(p.left);
    var a := Node(p.left, p.key, n.left, Red);
    var b := Node(n.right, t.key, t.right, Red);
    assert LeftRotate(p) == Node(a, n.key, n.right, Red);
    assert Ins(t, k) == Node(a, n.key, b, Black);
  }

  /** The repair at a black grandparent after insertion on its right. */
  lemma FixRightOk(t: RbTree, k: int)
    requires NoRedRed(t) && BlackBalanced(t) && t.Node? && !IsRed(t) && t.key <= k
    requires InsOk(t.right, k, Ins(t.right, k))
    ensures InsOk(t, k, Ins(t, k))
  {
    var p := Ins(t.right, k);
    var g := t.(right := p);
    var u := t.left;
    assert Ins(t, k) == FixRight(g, k);
    if IsRed(p) && IsRed(if k < p.key then p.left else p.right) {
      if IsRed(u) {
        FixRightRecolor(t, k);
      } else if k < p.key {
        FixRightInner(t, k);
      } else {
        FixRightOuter(t, k);
      }
    }
  }

  lemma FixRightRecolor(t: RbTree, k: int)
    requires NoRedRed(t) && BlackBalanced(t) && t.Node? && !IsRed(t) && t.key <= k
    requires InsOk(t.right, k, Ins(t.right, k))
    requires IsRed(Ins(t.right, k)) && IsRed(t.left)
    requires var p := Ins(t.right, k); IsRed(if k < p.key then p.left else p.right)
    ensures InsOk(t, k, Ins(t, k))
  {
    var p := Ins(t.right, k);
    var g := t.(right := p);
    var r := g.(left := Blacken(t.left), right := Blacken(p), tag := Red);
    assert Ins(t, k) == r;
  }

  lemma FixRightOuter(t: RbTree, k: int)
    requires NoRedRed(t) && BlackBalanced(t) && t.Node? && !IsRed(t) && t.key <= k
    requires InsOk(t.right, k, Ins(t.right, k))
    requires IsRed(Ins(t.right, k)) && !IsRed(t.left)
    requires var p := Ins(t.right, k); !(k < p.key) && IsRed(p.right)
    ensures InsOk(t, k, Ins(t, k))
  {
    var p := Ins(t.right, k);
    var lower := Node(t.left, t.key, p.left, Red);
    assert Ins(t, k) == Node(lower, p.key, p.right, Black);
  }

  lemma FixRightInner(t: RbTree, k: int)
    requires NoRedRed(t) && BlackBalanced(t) && t.Node? && !IsRed(t) && t.key <= k
    requires InsOk(t.right, k, Ins(t.right, k))
    requires IsRed(Ins(t.right, k)) && !IsRed(t.left)
    requires var p := Ins(t.right, k); k < p.key && IsRed(p.left)
    ensures InsOk(t, k, Ins(t, k))
  {
    var p := Ins(t.right, k);
    var n := p.left;
    assert BlackBalanced(p) && BlackBalanced(n);
    assert BH(n.left) == BH(n.right) == BH(n) == BH(p.right);
    var a := Node(t.left, t.key, n.left, Red);
    var b := Node(n.right, p.key, p.right, Red);
    assert RightRotate(p) == Node(n.left, n.key, b, Red);
    assert Ins(t, k) == Node(a, n.key, b, Black);
  }

  /** `insert` keeps a Red-Black tree a Red-Black tree holding one more
      occurrence of the key. */
  lemma InsertKeepsRedBlack(t: RbTree, k: int)
    requires IsRedBlack(t)
    ensures IsRedBlack(Insert(t, k))
    ensures Keys(Insert(t, k)) == Keys(t) + multiset{k}
  {
    InsInvariant(t, k);
    InsKeys(t, k);
    InsOrdered(t, k);
    var r := Ins(t, k);
    assert InOrder(Blacken(r)) == InOrder(r);
    SameInOrder(Blacken(r), r);
  }

  /* ---------- Heights ---------- */

  /** No path is more than twice as long as the black height (plus a red root). */
  lemma {:induction false} HeightAtMostTwiceBlack(t: RbTree)
    requires NoRedRed(t) && BlackBalanced(t)
    ensures Height(t) <= 2 * BH(t) + (if IsRed(t) then 1 else 0)
  {
    if t.Node? {
      HeightAtMostTwiceBlack(t.left);
      HeightAtMostTwiceBlack(t.right);
    }
  }

  /** A tree of black height `b` holds at least 2^b - 1 keys. */
  lemma {:induction false} BlackHeightSize(t: RbTree)
    requires BlackBalanced(t)
    ensures Pow2(BH(t)) <= Size(t) + 1
  {
    if t.Node? {
      BlackHeightSize(t.left);
      BlackHeightSize(t.right);
    }
  }

  /** `height()` of a Red-Black tree of `n` keys is at most 2 log2(n + 1). */
  lemma HeightLogarithmic(t: RbTree)
    requires IsRedBlack(t)
    ensures Pow2(Height(t) / 2) <= Size(t) + 1
  {
    HeightAtMostTwiceBlack(t);
    BlackHeightSize(t);
    Pow2Mono(Height(t) / 2, BH(t));
  }

  /* ---------- Examples ---------- */

  /** Ascending keys 1, 2, 3: the third insertion finds a black (`NIL`) uncle
      and rotates left, leaving 2 black over two red children. */
  lemma AscendingRotates()
    ensures InsertAll(Leaf, [1, 2, 3]) == Node(Node(Leaf, 1, Leaf, Red), 2, Node(Leaf, 3, Leaf, Red), Black)
  {
    var t1 := Node(Leaf, 1, Leaf, Black);
    var t2 := Node(Leaf, 1, Node(Leaf, 2, Leaf, Red), Black);
    assert Insert(Leaf, 1) == t1;
    assert Insert(t1, 2) == t2;
    assert Insert(t2, 3) == Node(Node(Leaf, 1, Leaf, Red), 2, Node(Leaf, 3, Leaf, Red), Black);
    var ks := [1, 2, 3];
    assert InsertAll(Leaf, ks) == InsertAll(t1, ks[1..]);
    assert InsertAll(t1, ks[1..]) == InsertAll(t2, ks[2..]);
  }

  /** With duplicate keys the rotation in the repair can move an equal key
      into a left subtree: inserting 1 three times gives a valid Red-Black
      tree that keeps the weak ordering but not the strict "left < key" one. */
  lemma DuplicatesBreakStrictOrder()
    ensures IsRedBlack(InsertAll(Leaf, [1, 1, 1]))
    ensures !SearchTree(InsertAll(Leaf, [1, 1, 1]))
  {
    var red := Node(Leaf, 1, Leaf, Red);
    var t1 := Node(Leaf, 1, Leaf, Black);
    var t2 := Node(Leaf, 1, red, Black);
    var t3 := Node(red, 1, red, Black);
    assert Insert(Leaf, 1) == t1;
    assert Insert(t1, 1) == t2;
    assert Insert(t2, 1) == t3;
    var ks := [1, 1, 1];
    assert InsertAll(Leaf, ks) == InsertAll(t1, ks[1..]);
    assert InsertAll(t1, ks[1..]) == InsertAll(t2, ks[2..]);
    assert InsertAll(t2, ks[2..]) == t3;
    assert !AllBelow(red, 1);
  }
}
