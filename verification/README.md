# Search trees of `laba2.py`, modelled in Dafny

This project models the three search trees of the laboratory program `laba2.py`:

- the unbalanced binary search tree `BinarySearchTree`, together with the height and traversals of `BinarySearchTreeWithHeight`;
- the height-balanced `AVLTree`;
- the colour-balanced `RedBlackTree`.

All three are pure functions over one immutable datatype,
`Trees.Tree<A> = Leaf | Node(left, key, right, tag)`. The `tag` holds each node kind's extra datum:

- nothing (`()`) for `Node`;
- the cached height for `AVLNode`;
- the colour for `RBNode`.

`Leaf` stands for Python's `None`. In the Red-Black tree it also stands for the shared black `NIL` sentinel.

Modules:

- `Trees` (`trees.dfy`): the datatype, key multisets, size, recursive height, the in-order sequence, the ordering predicates, `_search` and `_min_value_node`. It also holds the sequence and multiset facts the other modules share.
- `Bst` (`bst.dfy`): recursive insertion with ties going right, and the three-case deletion that copies the in-order successor's key.
- `Traversal` (`traversal.dfy`):
  - the accumulator traversals `_dfs_pre_order`, `_dfs_in_order` and `_dfs_post_order`;
  - the queue-based `bfs` as a method with a loop;
  - reference definitions of pre-, post- and level order;
  - the program's ten-key worked example.
- `Avl` (`avl.dfy`):
  - `_insert` and `_delete`, with the cached-height update and `_balance`;
  - `_balance` covers the LL, LR, RR and RL cases;
  - `_rotate_left` and `_rotate_right`;
  - `_get_height`, `_get_balance` and `height()`.
- `RedBlack` (`redblack.dfy`): insertion with `_fix_insert`, `_left_rotate` and `_right_rotate`, and the recursive height with `NIL` counted as 0.

The ordering invariant is stated two ways:

- `Ordered`: every left key is at most the node's key, and every right key is at least it. This holds exactly when the in-order sequence is non-decreasing (`Trees.OrderedIffSorted`).
- `SearchTree`: the strict rule, where left keys are below the node's key and right keys are at least it. This is what duplicates routed right would suggest.

The plain BST keeps the strict rule. The AVL and Red-Black rotations do not keep it when keys repeat: a left rotation moves a node into the left subtree of an equal key. `Avl.DuplicatesBreakStrictOrder` and `RedBlack.DuplicatesBreakStrictOrder` show this on the keys 1, 1, 1. So the balanced trees are proved to keep the weak ordering.

## Model

| member | source | states |
|---|---|---|
| Trees.Height | laba2.py:270-273 | Recursive height is 0 exactly for an empty tree and never exceeds the number of nodes. |
| Trees.Search | laba2.py:29-34 | A found node holds the query key and is a subtree of the input. On an ordered tree a node is found if and only if the key is stored, so an empty tree always gives `None` (`Leaf`). |
| Trees.MinValueNode | laba2.py:56-60 | The node reached by following left links has no left child, is a subtree of the input and holds one of its keys. |
| Trees.MinValueNodeIsLeast | laba2.py:56-60 | In an ordered tree that leftmost key is at most every stored key. |
| Bst.InsertKeys | laba2.py:17-24 | Insertion adds exactly one occurrence of the key and exactly one node. |
| Bst.InsertOrdered | laba2.py:17-24 | Insertion keeps the in-order sequence non-decreasing. |
| Bst.InsertKeepsSearchTree | laba2.py:17-24 | Insertion keeps the strict rule: left keys below, right keys at least the node's key. Ties go right. |
| Bst.InsertAllKeys | laba2.py:443-445 | Inserting a list of keys one by one stores each of them once more. |
| Bst.Delete | laba2.py:39-54 | Deleting an absent key returns the tree unchanged. Deletion never adds nodes. |
| Bst.DeleteOrdered | laba2.py:39-60 | On an ordered tree, deletion removes exactly one occurrence of the key (none if absent) and keeps the tree ordered. This includes the two-child case that copies the successor's key. |
| Bst.DeleteKeepsSearchTree | laba2.py:39-54 | Deletion keeps the strict rule. The copied successor key is above every key on its left and at most every key on its right. |
| Bst.InsertDeleteRoundTrip | laba2.py:17-54 | On an ordered tree, inserting a key and then deleting it gives back the original in-order sequence. |
| Bst.AscendingKeysDegenerate | laba2.py:17-24 | Keys inserted in non-decreasing order build a tree whose height equals the number of keys. |
| Traversal.PreOrderInto | laba2.py:281-285 | The accumulating recursion appends exactly the root-left-right sequence to the list it is given. |
| Traversal.InOrderInto | laba2.py:293-297 | The accumulating recursion appends exactly the left-root-right sequence. |
| Traversal.PostOrderInto | laba2.py:305-309 | The accumulating recursion appends exactly the left-right-root sequence. |
| Traversal.DfsPreOrder | laba2.py:275-279 | Pre-order lists every stored key exactly as often as it is stored, starting with the root. |
| Traversal.DfsInOrder | laba2.py:287-291 | In-order lists every stored key, and it is non-decreasing if and only if the tree is ordered. |
| Traversal.DfsPostOrder | laba2.py:299-303 | Post-order lists every stored key and ends with the root. |
| Traversal.Bfs | laba2.py:311-325 | The queue loop returns the keys level by level, each level left to right. That is a permutation of the stored keys starting with the root, and an empty list for an empty tree. |
| Traversal.QueueRunIsLevelOrder | laba2.py:317-325 | Draining a queue that starts with one tree yields that tree's level order. |
| Traversal.WorkedExample | laba2.py:443-449 | For the keys 79, 23, 90, 69, 85, 10, 4, 85, 61, 83 the traversals are: in-order `[4,10,23,61,69,79,83,85,85,90]`; pre-order `[79,23,10,4,69,61,90,85,83,85]`; post-order `[4,10,61,69,23,83,85,85,90,79]`; level order `[79,23,90,10,69,85,4,61,83,85]`. |
| Avl.RotateLeftInOrder | laba2.py:121-127 | A left rotation keeps the in-order sequence. Both rebuilt nodes get one more than the larger cached height of their children. |
| Avl.RotateRightInOrder | laba2.py:129-135 | A right rotation keeps the in-order sequence. Both rebuilt nodes get correct cached heights. |
| Avl.BalanceKeepsKeys | laba2.py:109-119 | Rebalancing keeps the stored keys and the ordering. |
| Avl.BalanceFixes | laba2.py:109-119 | When the two subtrees' heights differ by at most 2, rebalancing yields a balanced tree with correct cached heights. It lowers the height by at most one, and it leaves an already balanced node as it is. |
| Avl.InsertShape | laba2.py:76-85 | Insertion keeps every node balanced with a correct cached height. The height grows by at most one. |
| Avl.InsertKeys | laba2.py:76-85 | Insertion adds exactly one occurrence of the key. |
| Avl.InsertOrdered | laba2.py:76-85 | Insertion keeps the in-order sequence non-decreasing. |
| Avl.InsertKeepsAvl | laba2.py:73-85 | Insertion keeps the whole AVL invariant (ordered, balanced, correct cached heights) and adds the key. |
| Avl.DeleteShape | laba2.py:90-107 | Deletion keeps every node balanced with a correct cached height. The height drops by at most one. |
| Avl.DeleteOrdered | laba2.py:90-107 | On an ordered tree, deletion removes exactly one occurrence of the key (none if absent) and keeps the order. |
| Avl.DeleteKeepsAvl | laba2.py:87-107 | Deletion keeps the whole AVL invariant and removes one occurrence of the key. |
| Avl.DeleteAbsent | laba2.py:90-107 | On a well-formed AVL tree, deleting an absent key returns the tree unchanged, because every rebalance on the path is a no-op. |
| Avl.InsertDeleteRoundTrip | laba2.py:76-107 | On an ordered tree, inserting then deleting a key restores the in-order sequence. |
| Avl.CachedHeightIsHeight | laba2.py:149-151 | With correct cached heights, `height()` (the cached root height) equals the recursive height of `AVLTreeWithHeight`. |
| Avl.HeightLogarithmic | laba2.py:149-151 | A well-formed AVL tree of height h has at least 2^((h+1)/2) - 1 nodes, so its height is logarithmic in its size. |
| Avl.AscendingRotates | laba2.py:115-118 | Inserting 1, 2, 3 triggers the right-right rotation and gives a three-node tree rooted at 2 with height 2. |
| Avl.DuplicatesBreakStrictOrder | laba2.py:121-127 | Inserting 1, 1, 1 gives a valid AVL tree in which an equal key sits in a left subtree. |
| RedBlack.BlackBalancedPaths | laba2.py:194-224 | Every root-to-`NIL` path has the same number of black nodes if and only if every node's two subtrees have the same black height. |
| RedBlack.LeftRotateInOrder | laba2.py:226-239 | A left rotation keeps the in-order sequence. |
| RedBlack.RightRotateInOrder | laba2.py:241-254 | A right rotation keeps the in-order sequence. |
| RedBlack.FixLeftInOrder | laba2.py:196-209 | The repair of a left-side insertion (recolour, or one or two rotations) keeps the in-order sequence. |
| RedBlack.FixRightInOrder | laba2.py:210-223 | The mirror repair keeps the in-order sequence. |
| RedBlack.InsKeys | laba2.py:172-192 | Descent, red insertion and the repairs add exactly one occurrence of the key. |
| RedBlack.InsOrdered | laba2.py:172-192 | Descent, red insertion and the repairs keep the in-order sequence non-decreasing. |
| RedBlack.InsInvariant | laba2.py:194-223 | Below a tree without red-red edges and with equal black heights, insertion keeps the black height. Below a black node no red-red edge remains. Below a red node, at most one red-red edge remains, at that node, for the next repair up to remove. |
| RedBlack.InsertKeepsRedBlack | laba2.py:166-224 | Insertion followed by blackening the root keeps the tree ordered, with a black root, no red node with a red child and equal black heights. It adds the key. |
| RedBlack.HeightAtMostTwiceBlack | laba2.py:260-263 | In a tree without red-red edges and with equal black heights, the recursive height (`NIL` counted as 0) is at most twice the black height, plus one for a red root. |
| RedBlack.HeightLogarithmic | laba2.py:256-263 | A red-black tree of height h has at least 2^(h/2) - 1 nodes. |
| RedBlack.AscendingRotates | laba2.py:194-224 | Inserting 1, 2, 3 rotates once and recolours, giving a black 2 with red children 1 and 3. |
| RedBlack.DuplicatesBreakStrictOrder | laba2.py:226-239 | Inserting 1, 1, 1 gives a valid red-black tree in which an equal key sits in a left subtree. |

## Left out

- `experiment` (laba2.py:348-379), `plot_results` (laba2.py:382-403) and the `__main__` block (laba2.py:438-458): random sampling, plotting and console output. The worked example's insertions and traversals (laba2.py:443-449) are modelled.
- `BinarySearchTreeWithTraversal` (laba2.py:408-435): its `dfs` and `bfs` repeat `_dfs_pre_order` and `bfs` line for line, so `Traversal.DfsPreOrder` and `Traversal.Bfs` cover them.
- Red-Black deletion: `RedBlackTree` has none.
- Object identity: the model is persistent rather than mutating nodes in place. This covers:
  - parent back-pointers and the aliased `NIL` sentinel;
  - the rotations' rewiring of parent links and of `self.root`, modelled as rebuilding the rotated subtree;
  - `Trees.Search` returning the found subtree instead of a node object.
- The Red-Black insertion is modelled recursively:
  - The iterative descent (laba2.py:176-189) is a recursive descent.
  - The upward `_fix_insert` loop is a repair applied at each grandparent on the way back up.
  - The node on the path is identified by the same key comparison the descent made, instead of by object identity.
- Keys are mathematical integers. The program compares any Python values; its drivers use integers.
- `AVLTreeWithHeight._height` (laba2.py:332-335) stops at an absent child (`if not node`). `RedBlackTree._height` (laba2.py:260-263) stops at the sentinel (`node == self.NIL`, or `None`). `RedBlackTreeWithHeight._height` (laba2.py:342-345) stops at a node whose key is `None`, which only the sentinel has. Each of them is the recursion of `Trees.Height` with `Leaf` in place of the absent child or `NIL`.
- The `math.log2` comparison (laba2.py:392-395) is commented out and uses floating point.
- Avl.InsertOrdered, Avl.DeleteOrdered, Avl.InsertKeepsAvl and Avl.DeleteKeepsAvl: these state the weak ordering (non-decreasing in-order sequence), not the strict left-below rule, because rotations break the strict rule when keys repeat (`Avl.DuplicatesBreakStrictOrder`).
- RedBlack.InsOrdered and RedBlack.InsertKeepsRedBlack: these state the weak ordering, for the same reason (`RedBlack.DuplicatesBreakStrictOrder`).
- Avl.HeightLogarithmic and RedBlack.HeightLogarithmic: these state the bounds as powers of two on the size, not as a constant times `log2(n + 1)`, because the model has no real logarithm.
- Avl.DeleteAbsent: it requires balanced nodes with correct cached heights. On an arbitrary input, the rebalancing on the search path could change the tree even when the key is absent.
- The following functions model source code but carry no `ensures` of their own; the lemmas in the table state their properties:
  - `Bst.Insert` (laba2.py:17-24) and `Bst.InsertAll` (laba2.py:443-445).
  - `Avl.H` (`_get_height`, laba2.py:137-138) and `Avl.BalanceFactor` (`_get_balance`, laba2.py:140-141).
  - `Avl.Mk`, the height update of laba2.py:84 and laba2.py:106.
  - `Avl.RotateLeft` (laba2.py:121-127) and `Avl.RotateRight` (laba2.py:129-135).
  - `Avl.Balance` (`_balance`, laba2.py:109-119).
  - `Avl.Insert` (laba2.py:76-85), `Avl.Delete` (laba2.py:90-107) and `Avl.InsertAll` (laba2.py:368-370).
  - `RedBlack.LeftRotate` (laba2.py:226-239) and `RedBlack.RightRotate` (laba2.py:241-254).
  - `RedBlack.FixLeft` (laba2.py:196-209) and `RedBlack.FixRight` (laba2.py:210-223).
  - `RedBlack.Blacken`, the final `self.root.color = "black"` (laba2.py:224).
  - `RedBlack.Ins` (laba2.py:172-223), `RedBlack.Insert` (laba2.py:166-224) and `RedBlack.InsertAll` (laba2.py:374-376).
