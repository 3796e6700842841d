/**
 The node shape shared by the three search trees.

 `Node`, `AVLNode` and `RBNode` in the Python program differ only in the
 extra datum each node carries: nothing, a cached height, or a colour. One
 generic datatype captures all three; the `tag` holds the extra datum.
 `Leaf` stands for an absent child (`None`), and in the Red-Black tree also
 for the shared black `NIL` sentinel.
 */
module Trees {

  datatype Tree<A> = Leaf | Node(left: Tree<A>, key: int, right: Tree<A>, tag: A)

  function Max(a: int, b: int): int {
    if a < b then b else a
  }

  function Pow2(n: nat): nat {
    if n == 0 then 1 else 2 * Pow2(n - 1)
  }

  lemma {:induction false} Pow2Mono(a: nat, b: nat)
    requires a <= b
    ensures Pow2(a) <= Pow2(b)
    decreases b
  {
    if a < b {
      Pow2Mono(a, b - 1);
    }
  }

  /** Regrouping the in-order sequence of a rotated node. */
  lemma Regroup(a: seq<int>, x: int, b: seq<int>, y: int, c: seq<int>)
    ensures a + [x] + (b + [y] + c) == (a + [x] + b) + [y] + c
  {
  }

  lemma Assoc<T>(a: seq<T>, b: seq<T>, c: seq<T>)
    ensures (a + b) + c == a + (b + c)
  {
  }

  /** The multiset of keys stored in a tree (duplicates are allowed). */
  function Keys<A>(t: Tree<A>): multiset<int> {
    match t
    case Leaf => multiset{}
    case Node(l, k, r, _) => Keys(l) + multiset{k} + Keys(r)
  }

  function Size<A>(t: Tree<A>): nat {
    match t
    case Leaf => 0
    case Node(l, _, r, _) => Size(l) + 1 + Size(r)
  }

  /** Recursive height: 0 for an empty tree, 1 + max of the children otherwise. */
  function Height<A>(t: Tree<A>): (h: nat)
    ensures h <= Size(t)
    ensures (h == 0) == t.Leaf?
  {
    match t
    case Leaf => 0
    case Node(l, _, r, _) => 1 + Max(Height(l), Height(r))
  }

  /** The in-order key sequence; it lists every key exactly as often as it is stored. */
  function InOrder<A>(t: Tree<A>): seq<int> {
    match t
    case Leaf => []
    case Node(l, k, r, _) => InOrder(l) + [k] + InOrder(r)
  }

  lemma {:induction false} InOrderKeys<A>(t: Tree<A>)
    ensures multiset(InOrder(t)) == Keys(t)
    ensures |InOrder(t)| == Size(t)
  {
    if t.Node? {
      InOrderKeys(t.left);
      InOrderKeys(t.right);
    }
  }

  /** Every key stored in `t` is at most `b`. */
  ghost predicate AllAtMost<A>(t: Tree<A>, b: int) {
    t.Leaf? || (t.key <= b && AllAtMost(t.left, b) && AllAtMost(t.right, b))
  }

  /** Every key stored in `t` is strictly below `b`. */
  ghost predicate AllBelow<A>(t: Tree<A>, b: int) {
    t.Leaf? || (t.key < b && AllBelow(t.left, b) && AllBelow(t.right, b))
  }

  /** Every key stored in `t` is at least `b`. */
  ghost predicate AllAtLeast<A>(t: Tree<A>, b: int) {
    t.Leaf? || (b <= t.key && AllAtLeast(t.left, b) && AllAtLeast(t.right, b))
  }

  /** The bound predicates say what they mean about the stored keys. */
  lemma {:induction false} BoundsMeanKeys<A>(t: Tree<A>, b: int)
    ensures AllAtMost(t, b) <==> forall x | x in Keys(t) :: x <= b
    ensures AllBelow(t, b) <==> forall x | x in Keys(t) :: x < b
    ensures AllAtLeast(t, b) <==> forall x | x in Keys(t) :: b <= x
  {
    match t
    case Leaf =>
    case Node(l, k, r, _) =>
      BoundsMeanKeys(l, b);
      BoundsMeanKeys(r, b);
      assert forall x :: x in Keys(t) <==> x in Keys(l) || x == k || x in Keys(r);
  }

  /** Bounds survive the removal of one occurrence of a key. */
  lemma BoundsOfRemoved<A, B>(s: Tree<A>, t: Tree<B>, k: int, b: int)
    requires Keys(s) == Keys(t) - multiset{k}
    ensures AllAtMost(t, b) ==> AllAtMost(s, b)
    ensures AllAtLeast(t, b) ==> AllAtLeast(s, b)
  {
    forall x | x in Keys(s) ensures x in Keys(t) {
      assert Keys(s)[x] <= Keys(t)[x];
    }
    BoundsMeanKeys(s, b);
    BoundsMeanKeys(t, b);
  }

  /** Bounds survive the addition of a key within them. */
  lemma BoundsOfAdded<A, B>(s: Tree<A>, t: Tree<B>, k: int, b: int)
    requires Keys(s) == Keys(t) + multiset{k}
    ensures AllAtMost(t, b) && k <= b ==> AllAtMost(s, b)
    ensures AllAtLeast(t, b) && b <= k ==> AllAtLeast(s, b)
  {
    BoundsMeanKeys(s, b);
    BoundsMeanKeys(t, b);
  }

  /** A key beyond a tree's bound is not in the tree. */
  lemma OutsideBound<A>(t: Tree<A>, k: int, b: int)
    ensures AllAtLeast(t, b) && k < b ==> k !in Keys(t)
    ensures AllAtMost(t, b) && b < k ==> k !in Keys(t)
  {
    BoundsMeanKeys(t, b);
  }

  /** A bound on a tree bounds each of its keys. */
  lemma BoundOfKey<A>(t: Tree<A>, m: int, b: int)
    requires m in Keys(t)
    ensures AllAtMost(t, b) ==> m <= b
    ensures AllAtLeast(t, b) ==> b <= m
  {
    BoundsMeanKeys(t, b);
  }

  lemma {:induction false} AtMostWeaken<A>(t: Tree<A>, b: int, b': int)
    requires AllAtMost(t, b) && b <= b'
    ensures AllAtMost(t, b')
  {
    if t.Node? {
      AtMostWeaken(t.left, b, b');
      AtMostWeaken(t.right, b, b');
    }
  }

  lemma {:induction false} AtLeastWeaken<A>(t: Tree<A>, b: int, b': int)
    requires AllAtLeast(t, b) && b' <= b
    ensures AllAtLeast(t, b')
  {
    if t.Node? {
      AtLeastWeaken(t.left, b, b');
      AtLeastWeaken(t.right, b, b');
    }
  }

  /** Bounds depend only on the in-order sequence. */
  lemma {:induction false} BoundsFollowInOrder<A, B>(s: Tree<A>, t: Tree<B>, b: int)
    requires InOrder(s) == InOrder(t)
    ensures AllAtMost(s, b) <==> AllAtMost(t, b)
    ensures AllAtLeast(s, b) <==> AllAtLeast(t, b)
  {
    BoundsMeanKeys(s, b);
    BoundsMeanKeys(t, b);
    InOrderKeys(s);
    InOrderKeys(t);
  }

  /* Multiset identities behind deletion, kept apart from any tree so that
     each is proved in a small context. */

  lemma DropFromLeft(a: multiset<int>, x: int, b: multiset<int>, k: int)
    requires k != x && k !in b
    ensures (a - multiset{k}) + multiset{x} + b == (a + multiset{x} + b) - multiset{k}
  {
  }

  lemma DropFromRight(a: multiset<int>, x: int, b: multiset<int>, k: int)
    requires k != x && k !in a
    ensures a + multiset{x} + (b - multiset{k}) == (a + multiset{x} + b) - multiset{k}
  {
  }

  lemma ReplaceRoot(a: multiset<int>, x: int, b: multiset<int>, m: int)
    requires m in b
    ensures a + multiset{m} + (b - multiset{m}) == (a + multiset{x} + b) - multiset{x}
  {
  }

  lemma AddToLeft(a: multiset<int>, x: int, b: multiset<int>, k: int)
    ensures (a + multiset{k}) + multiset{x} + b == (a + multiset{x} + b) + multiset{k}
  {
  }

  lemma AddToRight(a: multiset<int>, x: int, b: multiset<int>, k: int)
    ensures a + multiset{x} + (b + multiset{k}) == (a + multiset{x} + b) + multiset{k}
  {
  }

  lemma AddRemove(a: multiset<int>, k: int)
    ensures (a + multiset{k}) - multiset{k} == a
  {
  }

  ghost predicate Sorted(s: seq<int>) {
    forall i, j | 0 <= i < j < |s| :: s[i] <= s[j]
  }

  /** Weak ordering: every left key is <= the node's key, every right key is >=.
      This is the invariant all three trees keep, duplicates included. */
  ghost predicate Ordered<A>(t: Tree<A>) {
    match t
    case Leaf => true
    case Node(l, k, r, _) =>
      && Ordered(l) && Ordered(r)
      && AllAtMost(l, k)
      && AllAtLeast(r, k)
  }

  /** Strict ordering: left keys < key <= right keys (ties go right, as
      `_insert` sends them). */
  ghost predicate SearchTree<A>(t: Tree<A>) {
    match t
    case Leaf => true
    case Node(l, k, r, _) =>
      && SearchTree(l) && SearchTree(r)
      && AllBelow(l, k)
      && AllAtLeast(r, k)
  }

  /** `s` occurs in `t` as the subtree rooted at some node (or is `t` itself). */
  ghost predicate SubtreeOf<A>(s: Tree<A>, t: Tree<A>) {
    s == t || (t.Node? && (SubtreeOf(s, t.left) || SubtreeOf(s, t.right)))
  }

  /** Leftmost node of a non-empty tree (`_min_value_node`): it has no left
      child, and in an ordered tree it holds the least key. */
  function MinValueNode<A>(t: Tree<A>): (m: Tree<A>)
    requires t.Node?
    ensures m.Node? && m.left.Leaf?
    ensures SubtreeOf(m, t)
    ensures m.key in Keys(t)
  {
    if t.left.Leaf? then t else MinValueNode(t.left)
  }

  /** In an ordered tree the leftmost key is the least key. */
  lemma {:induction false} MinValueNodeIsLeast<A>(t: Tree<A>)
    requires t.Node? && Ordered(t)
    ensures AllAtLeast(t, MinValueNode(t).key)
  {
    var m := MinValueNode(t).key;
    if t.left.Node? {
      MinValueNodeIsLeast(t.left);
      BoundsMeanKeys(t.left, t.key);
      AtLeastWeaken(t.right, t.key, m);
    }
  }

  /** Descent search (`_search`): the subtree rooted at a node holding `k`,
      or `Leaf` (the source's `None`) when the descent reaches an absent child.
      Equality is checked before the direction, so the weak ordering suffices. */
  function Search<A>(t: Tree<A>, k: int): (r: Tree<A>)
    ensures r.Node? ==> r.key == k && SubtreeOf(r, t)
    ensures Ordered(t) ==> (r.Node? <==> k in Keys(t))
  {
    match t
    case Leaf => Leaf
    case Node(l, x, rt, _) =>
      BoundsMeanKeys(l, x);
      BoundsMeanKeys(rt, x);
      if x == k then t
      else if k < x then Search(l, k)
      else Search(rt, k)
  }

  lemma {:induction false} BelowIsAtMost<A>(t: Tree<A>, b: int)
    requires AllBelow(t, b)
    ensures AllAtMost(t, b)
  {
    if t.Node? {
      BelowIsAtMost(t.left, b);
      BelowIsAtMost(t.right, b);
    }
  }

  lemma {:induction false} SearchTreeIsOrdered<A>(t: Tree<A>)
    requires SearchTree(t)
    ensures Ordered(t)
  {
    if t.Node? {
      SearchTreeIsOrdered(t.left);
      SearchTreeIsOrdered(t.right);
      BelowIsAtMost(t.left, t.key);
    }
  }

  /** Splitting a sorted concatenation around a middle key. */
  lemma SortedSplit(a: seq<int>, k: int, b: seq<int>)
    ensures Sorted(a + [k] + b) <==>
      && Sorted(a) && Sorted(b)
      && (forall x | x in a :: x <= k)
      && (forall x | x in b :: k <= x)
  {
    if Sorted(a) && Sorted(b) && (forall x | x in a :: x <= k) && (forall x | x in b :: k <= x) {
      SortedJoin(a, k, b);
    }
    if Sorted(a + [k] + b) {
      SortedParts(a, k, b);
    }
  }

  lemma SortedJoin(a: seq<int>, k: int, b: seq<int>)
    requires Sorted(a) && Sorted(b)
    requires forall x | x in a :: x <= k
    requires forall x | x in b :: k <= x
    ensures Sorted(a + [k] + b)
  {
    var s := a + [k] + b;
    forall i, j | 0 <= i < j < |s|
      ensures s[i] <= s[j]
    {
      if j < |a| {
        assert s[i] == a[i] && s[j] == a[j];
      } else if i < |a| {
        assert s[i] == a[i] && a[i] in a;
        if j > |a| {
          assert s[j] == b[j - |a| - 1] && b[j - |a| - 1] in b;
        }
      } else if i == |a| {
        if j > |a| {
          assert s[j] == b[j - |a| - 1] && b[j - |a| - 1] in b;
        }
      } else {
        assert s[i] == b[i - |a| - 1] && s[j] == b[j - |a| - 1];
      }
    }
  }

  lemma SortedParts(a: seq<int>, k: int, b: seq<int>)
    requires Sorted(a + [k] + b)
    ensures Sorted(a) && Sorted(b)
    ensures forall x | x in a :: x <= k
    ensures forall x | x in b :: k <= x
  {
    var s := a + [k] + b;
    assert s[|a|] == k;
    forall i, j | 0 <= i < j < |a| ensures a[i] <= a[j] {
      assert s[i] == a[i] && s[j] == a[j];
    }
    forall i, j | 0 <= i < j < |b| ensures b[i] <= b[j] {
      assert s[|a| + 1 + i] == b[i] && s[|a| + 1 + j] == b[j];
    }
    forall x | x in a ensures x <= k {
      var i :| 0 <= i < |a| && a[i] == x;
      assert s[i] == x;
    }
    forall x | x in b ensures k <= x {
      var i :| 0 <= i < |b| && b[i] == x;
      assert s[|a| + 1 + i] == x;
    }
  }

  /** The ordering invariant is exactly "the in-order sequence is non-decreasing". */
  lemma {:induction false} OrderedIffSorted<A>(t: Tree<A>)
    ensures Ordered(t) <==> Sorted(InOrder(t))
  {
    match t
    case Leaf =>
    case Node(l, k, r, _) =>
      OrderedIffSorted(l);
      OrderedIffSorted(r);
      SortedSplit(InOrder(l), k, InOrder(r));
      InOrderKeys(l);
      InOrderKeys(r);
      BoundsMeanKeys(l, k);
      BoundsMeanKeys(r, k);
      assert forall x :: x in InOrder(l) <==> x in Keys(l);
      assert forall x :: x in InOrder(r) <==> x in Keys(r);
  }

  /** Two trees with the same in-order sequence are ordered alike and hold the
      same keys; rotations rely on this. */
  lemma SameInOrder<A, B>(s: Tree<A>, t: Tree<B>)
    requires InOrder(s) == InOrder(t)
    ensures Keys(s) == Keys(t)
    ensures Ordered(s) <==> Ordered(t)
  {
    InOrderKeys(s);
    InOrderKeys(t);
    OrderedIffSorted(s);
    OrderedIffSorted(t);
  }

  /** A sorted sequence is determined by its multiset of elements. */
  lemma {:induction false} SortedUnique(a: seq<int>, b: seq<int>)
    requires Sorted(a) && Sorted(b)
    requires multiset(a) == multiset(b)
    ensures a == b
  {
    if a == [] {
      assert |b| == |multiset(b)| == 0;
    } else {
      assert a[0] in multiset(b);
      SameHead(a, b);
      SortedTail(a);
      SortedTail(b);
      TailMultiset(a);
      TailMultiset(b);
      SortedUnique(a[1..], b[1..]);
      SameHeadSameTail(a, b);
    }
  }

  lemma SameHeadSameTail(a: seq<int>, b: seq<int>)
    requires a != [] && b != [] && a[0] == b[0] && a[1..] == b[1..]
    ensures a == b
  {
    assert a == [a[0]] + a[1..];
    assert b == [b[0]] + b[1..];
  }

  lemma SameHead(a: seq<int>, b: seq<int>)
    requires Sorted(a) && Sorted(b) && a != [] && b != []
    requires multiset(a) == multiset(b)
    ensures a[0] == b[0]
  {
    assert a[0] in multiset(b);
    assert b[0] in multiset(a);
    HeadIsLeast(a, b[0]);
    HeadIsLeast(b, a[0]);
  }

  lemma HeadIsLeast(s: seq<int>, x: int)
    requires Sorted(s) && x in s
    ensures s[0] <= x
  {
  }

  lemma SortedTail(a: seq<int>)
    requires Sorted(a) && |a| > 0
    ensures Sorted(a[1..])
  {
    forall i, j | 0 <= i < j < |a| - 1 ensures a[1..][i] <= a[1..][j] {
      assert a[1..][i] == a[i + 1] && a[1..][j] == a[j + 1];
    }
  }

  lemma TailMultiset(a: seq<int>)
    requires |a| > 0
    ensures multiset(a[1..]) == multiset(a) - multiset{a[0]}
  {
    assert a == [a[0]] + a[1..];
  }

  /** Ordered trees holding the same keys have the same in-order sequence. */
  lemma OrderedSameKeys<A, B>(s: Tree<A>, t: Tree<B>)
    requires Ordered(s) && Ordered(t)
    requires Keys(s) == Keys(t)
    ensures InOrder(s) == InOrder(t)
  {
    InOrderKeys(s);
    InOrderKeys(t);
    OrderedIffSorted(s);
    OrderedIffSorted(t);
    SortedUnique(InOrder(s), InOrder(t));
  }
}
