# AVL tree engine of the AVL Tree Visualizer, in Dafny

The AVL Tree Visualizer lets a user insert integer keys into a self-balancing
binary search tree and delete them again. After each change it draws the tree,
labelling every node with its key and its balance factor. All of the logic
sits in two classes in `src/components/visualizers/AVLTreeVisualizer.jsx`:

- `AVLNode` is a key, two child links and a cached subtree height.
- `AVLTree` has these methods:
  - `getHeight` and `getBalanceFactor`
  - the two single rotations `rotateRight` and `rotateLeft`
  - `insert`, which picks among the four rotation cases by comparing the
    inserted key with the taller child's key
  - `deleteNode`, which picks a rotation by the taller child's balance factor
  - `findMin`

A third piece, the function `generateTreeData`, builds the nested view that
the display draws.

This project models that engine and proves what it promises.

- **Data.** A subtree is the datatype `Tree = Nil | Node(value, left, right,
  height)`. The cached height is a field of its own. It is not recomputed
  from the shape, so staleness can be expressed and ruled out.
- **Invariants.** Every public operation keeps three invariants:
  - `Ordered`: BST ordering.
  - `Balanced`: at every node the children's true heights differ by at most
    one.
  - `HeightCorrect`: every cached height equals the recursive height.

  Together they make up `IsAVL`.
- **Operations.** Every recursive call in the source returns the new root of
  a subtree, and the caller stores it in its child slot. The model does the
  same: `Insert`, `Delete` and the rotations return the new subtree, and the
  caller builds its node from it. `findMin`'s loop is the method `FindMin`,
  proved to stop at the node that the function `Leftmost` describes.
  `Delete` uses `Leftmost`.
- **What is proved.**
  - Insertion adds exactly the one key and deletion removes exactly the one
    key.
  - Both give back the very same tree when the key is already present
    (insert) or absent (delete).
  - Both keep all three invariants.
  - Every null dereference in the rotation guards and rotations is ruled out
    on AVL trees.
  - The four three-key insertion orders of the rotation cases, and a deletion
    that promotes an in-order successor, are worked out concretely.
  - The view lists every node once, in pre-order (left before right), with
    its key and balance factor.
  - An AVL tree's height is logarithmic in its size.

Files:

- `tree.dfy` (module `AvlTree`): the node, heights, balance factors, the
  invariants, the rotations and what they achieve.
- `insert.dfy` (module `AvlInsert`): `insert`.
- `delete.dfy` (module `AvlDelete`): `deleteNode` and `findMin`.
- `snapshot.dfy` (module `AvlSnapshot`): `generateTreeData`.
- `height.dfy` (module `AvlHeight`): the height bound.
- `scenarios.dfy` (module `AvlScenarios`): concrete runs.

In the code, a spliced-out node's child still goes through the height
refresh and the rebalancing (`AVLTreeVisualizer.jsx:85-99` run on the child).
The model does this too, and `DeletedOnlyChild` proves that it changes
nothing.

## Model

| member | source | states |
|---|---|---|
| `AvlTree.NewNode` | src/components/visualizers/AVLTreeVisualizer.jsx:7-14 | A new node is a leaf with cached height 1. It is an AVL tree whose only key is the given value. |
| `AvlTree.GetHeight` | src/components/visualizers/AVLTreeVisualizer.jsx:22-24 | `getHeight` gives 0 for null. When every cache in the subtree is correct, it gives the recursive height. |
| `AvlTree.BalanceFactor` | src/components/visualizers/AVLTreeVisualizer.jsx:26-28 | `getBalanceFactor` gives 0 for null. When caches are correct, it gives the true height of the left subtree minus that of the right. |
| `AvlTree.UpdateHeight` | src/components/visualizers/AVLTreeVisualizer.jsx:56 | Only the node's cache changes, recomputed from its children's caches. If the children's caches are correct, so is the node's. |
| `AvlTree.RotateRight` | src/components/visualizers/AVLTreeVisualizer.jsx:30-38 | Requires `y.left` to be non-null. The left child becomes the root, and its former right subtree becomes `y`'s left subtree. The caches of exactly these two nodes are recomputed, `y` first. The in-order key sequence, the key set and the size are unchanged. |
| `AvlTree.RotateLeft` | src/components/visualizers/AVLTreeVisualizer.jsx:40-48 | Mirror of `RotateRight`. Requires `x.right` to be non-null. The in-order key sequence, the key set and the size are unchanged. |
| `AvlTree.RotationsKeepOrder` | src/components/visualizers/AVLTreeVisualizer.jsx:30-48 | A rotated tree satisfies BST ordering if and only if the original does. |
| `AvlTree.OrderedIffSorted` | src/components/visualizers/AVLTreeVisualizer.jsx:52-53 | BST ordering, which is what insert's and delete's left/right search relies on, holds exactly when the in-order key sequence is strictly increasing. |
| `AvlTree.RotateRightRebalances` | src/components/visualizers/AVLTreeVisualizer.jsx:89 | Setup: the children are AVL trees, the left one two levels taller, and the left child is not right-heavy. Then one right rotation yields an AVL tree with the same keys. Its height is the left child's height, plus one when the left child was level. |
| `AvlTree.RotateLeftRebalances` | src/components/visualizers/AVLTreeVisualizer.jsx:94 | Mirror of `RotateRightRebalances` for a right child two levels taller that is not left-heavy. |
| `AvlTree.RotateLeftRightRebalances` | src/components/visualizers/AVLTreeVisualizer.jsx:90-93 | The left child is two levels taller and right-heavy. Its right child is then non-null, and the left-right double rotation yields an AVL tree with the same keys, exactly as tall as the left child was. |
| `AvlTree.RotateRightLeftRebalances` | src/components/visualizers/AVLTreeVisualizer.jsx:95-98 | Mirror of `RotateLeftRightRebalances` for the right-left case. |
| `AvlInsert.InsertRebalance` | src/components/visualizers/AVLTreeVisualizer.jsx:56-69 | Refreshes the node's cache, then takes the first guard that holds. A balance above 1 with a key below the left child's key gives the right rotation. A balance below -1 with a key above the right child's key gives the left rotation. A balance above 1 with a key above the left child's key gives the left-right double rotation. A balance below -1 with a key below the right child's key gives the right-left double rotation. Otherwise the node is returned. Proved: every case keeps the in-order key sequence and the key set, and a node whose refreshed balance factor is -1, 0 or 1 only has its cache refreshed. |
| `AvlInsert.InsertRebalanceCorrect` | src/components/visualizers/AVLTreeVisualizer.jsx:56-69 | Setup: one child has just received the key, and a child two levels taller leans toward it. The zig-zag cases' children are then non-null. The result is an AVL tree with the same keys. A balanced node only has its cache refreshed, and an unbalanced one ends one level lower. |
| `AvlInsert.InsertRebalanceLeftHeavy` | src/components/visualizers/AVLTreeVisualizer.jsx:59-64 | Covers the guards at jsx:59 and jsx:61-64 (line 60 is the other side's guard, which this case fails). Setup: the left child is two levels taller and leans toward the key. The left-right case's middle node is then non-null, and the result is an AVL tree with the same keys, one level lower. |
| `AvlInsert.InsertRebalanceRightHeavy` | src/components/visualizers/AVLTreeVisualizer.jsx:60-68 | Covers the guards at jsx:60 and jsx:65-68 (lines 61-64 are the other side's case, which this case fails). Mirror of `InsertRebalanceLeftHeavy`: the right-left case's middle node is non-null, and the result is an AVL tree with the same keys, one level lower. |
| `AvlInsert.InsertRebalanceUntouched` | src/components/visualizers/AVLTreeVisualizer.jsx:52-69 | On an AVL node, whatever the key, the height refresh and the rotation guards hand the node back untouched, so a duplicate insert returns the same subtree at every ancestor of the found node. |
| `AvlInsert.InsertedLeft` | src/components/visualizers/AVLTreeVisualizer.jsx:52 | After the left child slot receives the recursive result, rebalancing completes the insertion at this node. |
| `AvlInsert.InsertedRight` | src/components/visualizers/AVLTreeVisualizer.jsx:53 | Mirror of `InsertedLeft` for the right child slot. |
| `AvlInsert.Insert` | src/components/visualizers/AVLTreeVisualizer.jsx:50-70 | On an AVL tree, the result is an AVL tree whose keys are the old keys plus the value. A present value returns the same subtree. The height grows by at most one, and when it grows the root leans toward the new key. |
| `AvlDelete.Leftmost` | src/components/visualizers/AVLTreeVisualizer.jsx:102-105 | The node `findMin` reaches has no left child. Its key is a key of the subtree, the first one in in-order, and in a BST the least one. |
| `AvlDelete.FindMin` | src/components/visualizers/AVLTreeVisualizer.jsx:102-105 | The `while` loop terminates and returns `Leftmost(node)`. |
| `AvlDelete.DeleteRebalance` | src/components/visualizers/AVLTreeVisualizer.jsx:85-99 | Refreshes the node's cache, then takes the first guard that holds. A balance above 1 gives the right rotation when the left child's balance factor is at least 0, and the left-right double rotation when it is negative. A balance below -1 gives the left rotation when the right child's balance factor is at most 0, and the right-left double rotation when it is positive. Otherwise the node is returned. Proved: every case keeps the in-order key sequence and the key set, and a node whose refreshed balance factor is -1, 0 or 1 only has its cache refreshed. |
| `AvlDelete.DeleteRebalanceCorrect` | src/components/visualizers/AVLTreeVisualizer.jsx:87-99 | Setup: the children are AVL trees at most two levels apart. The result is then an AVL tree with the same keys, at most one level lower. A balanced node only has its cache refreshed. |
| `AvlDelete.DeleteRebalanceLeftHeavy` | src/components/visualizers/AVLTreeVisualizer.jsx:89-93 | Setup: the left child is two levels taller. The result is an AVL tree with the same keys, at most one level lower. |
| `AvlDelete.DeleteRebalanceRightHeavy` | src/components/visualizers/AVLTreeVisualizer.jsx:94-98 | Mirror of `DeleteRebalanceLeftHeavy` for a right child two levels taller. |
| `AvlDelete.DeletedAbsent` | src/components/visualizers/AVLTreeVisualizer.jsx:85-99 | On a node of an AVL tree, the refresh and the rebalancing change nothing. This is why deleting an absent key returns the same subtree. |
| `AvlDelete.DeletedLeft` | src/components/visualizers/AVLTreeVisualizer.jsx:74 | After the left child slot receives the recursive result, rebalancing completes the deletion at this node. |
| `AvlDelete.DeletedRight` | src/components/visualizers/AVLTreeVisualizer.jsx:75 | Mirror of `DeletedLeft` for the right child slot. |
| `AvlDelete.DeletedOnlyChild` | src/components/visualizers/AVLTreeVisualizer.jsx:77-78 | A node with at most one child is replaced by that child, or by null. The child comes through the refresh and rebalancing unchanged. |
| `AvlDelete.DeletedSuccessor` | src/components/visualizers/AVLTreeVisualizer.jsx:79-83 | A node with two children takes its in-order successor's key, and that key is deleted from the right subtree. The result is an AVL tree without the node's old key. |
| `AvlDelete.SuccessorTakesPlace` | src/components/visualizers/AVLTreeVisualizer.jsx:80-82 | The node that took its successor's key, over the right subtree without that key, has AVL children on the correct sides. It holds exactly the old keys except the node's own. |
| `AvlDelete.Delete` | src/components/visualizers/AVLTreeVisualizer.jsx:72-100 | On an AVL tree, the result is an AVL tree whose keys are the old keys minus the value. An absent value returns the same subtree. The height drops by at most one. |
| `AvlSnapshot.Present` | src/components/visualizers/AVLTreeVisualizer.jsx:130 | `.filter(Boolean)` on one slot: a null child view gives nothing, a present one gives exactly that view. |
| `AvlSnapshot.Snapshot` | src/components/visualizers/AVLTreeVisualizer.jsx:126-133 | Null exactly for the empty tree. Otherwise the entry carries the node's key and balance factor, one child entry per non-null child, the first being the left subtree's view when there is a left child and the last the right subtree's view when there is a right child. |
| `AvlSnapshot.SnapshotListsEveryNode` | src/components/visualizers/AVLTreeVisualizer.jsx:128-131 | Flattened, the view is the tree's pre-order list of (key, balance factor, number of children) triples, with the left subtree before the right. |
| `AvlSnapshot.EntriesDetermineViews` | src/components/visualizers/AVLTreeVisualizer.jsx:126-133 | Lists of views of equal length whose flattened (key, balance factor, child count) lists agree are equal, nesting included, so the flattened form loses nothing. |
| `AvlSnapshot.SnapshotUnique` | src/components/visualizers/AVLTreeVisualizer.jsx:126-133 | Any view whose flattened list is the tree's pre-order is the tree's snapshot: the view is fixed down to which entry is a child of which. |
| `AvlSnapshot.SnapshotSize` | src/components/visualizers/AVLTreeVisualizer.jsx:126-133 | The view is null exactly when the tree is empty. It has exactly as many entries as the tree has nodes, and exactly the tree's keys. |
| `AvlSnapshot.SnapshotBalancesBounded` | src/components/visualizers/AVLTreeVisualizer.jsx:129 | On an AVL tree, every balance factor the view shows is -1, 0 or 1. |
| `AvlHeight.BalancedHasMinNodes` | src/components/visualizers/AVLTreeVisualizer.jsx:57-69 | A tree kept balanced by these guards has at least `MinNodes(h)` nodes, where `MinNodes` is the Fibonacci-like minimum for height h. |
| `AvlHeight.HeightLogarithmic` | src/components/visualizers/AVLTreeVisualizer.jsx:57-69 | A balanced tree of height h has at least 2^ceil(h/2) - 1 nodes, so h <= 2 log2(n + 1). |
| `AvlScenarios.InsertAscending` | src/components/visualizers/AVLTreeVisualizer.jsx:60 | Inserting 10, 20, 30 takes one left rotation and gives root 20 with leaves 10 and 30. |
| `AvlScenarios.InsertDescending` | src/components/visualizers/AVLTreeVisualizer.jsx:59 | Inserting 30, 20, 10 takes one right rotation and gives the same tree. |
| `AvlScenarios.InsertLeftRight` | src/components/visualizers/AVLTreeVisualizer.jsx:61-64 | Inserting 30, 10, 20 takes the left-right double rotation and gives the same tree. |
| `AvlScenarios.InsertRightLeft` | src/components/visualizers/AVLTreeVisualizer.jsx:65-68 | Inserting 10, 30, 20 takes the right-left double rotation and gives the same tree. |
| `AvlScenarios.InsertIntoLeaf` | src/components/visualizers/AVLTreeVisualizer.jsx:50-69 | Inserting a different key into a single leaf hangs it on the matching side, with no rotation and cached height 2. |
| `AvlScenarios.BuildPerfect7` | src/components/visualizers/AVLTreeVisualizer.jsx:50-70 | Inserting 20, 10, 30, 5, 15, 25, 35 gives the perfect tree of height 3, which is an AVL tree. |
| `AvlScenarios.DeleteSuccessorPromoted` | src/components/visualizers/AVLTreeVisualizer.jsx:79-83 | Deleting 10 from the subtree 10(5, 15) promotes the successor 15. |
| `AvlScenarios.DeleteWithSuccessor` | src/components/visualizers/AVLTreeVisualizer.jsx:72-100 | Deleting 10 from that seven-key tree gives 20(15(5, -), 30(25, 35)). |
| `AvlScenarios.DeleteWithSuccessorKeys` | src/components/visualizers/AVLTreeVisualizer.jsx:72-100 | The tree left by that deletion is an AVL tree with keys exactly {5, 15, 20, 25, 30, 35}. |
| `AvlScenarios.InsertIdempotent` | src/components/visualizers/AVLTreeVisualizer.jsx:54 | Inserting a key twice gives the same tree as inserting it once. |
| `AvlScenarios.Membership` | src/components/visualizers/AVLTreeVisualizer.jsx:50-100 | A key is present right after insertion and absent right after deletion. Deleting a freshly inserted key restores the original key set. |

## Left out

- The React component (`useState`, `handleInsert`, `handleDelete`, the JSX
  layout) is not modelled. It is UI plumbing. Apart from the constructor's
  `this.root = null` (`AVLTreeVisualizer.jsx:19`), only the component assigns
  `AVLTree.root`. No `AVLTree` method reads or writes it, which is why those
  methods appear here as functions of the subtree they are given.
- `handleNodeClick`'s double-click detection is not modelled. It depends on
  the wall clock and a 300 ms threshold.
- `parseInt` of the input text is not modelled, and neither are JavaScript
  number semantics. Keys are Dafny `int`, so `NaN`, which the code would
  store or treat as already present, does not arise. Heights are `nat`.
- The label string `"<key> (BF: <bf>)"`, the `data.value` copy of the key and
  the `"Empty"` placeholder are not modelled. The view carries the key and
  the balance factor as numbers, and an empty tree's view is `None`.
- The `react-d3-tree` drawing widget, `Input.jsx` and `Button.jsx` are not
  part of this model. They contain no engine logic.
- Node identity and in-place mutation are not modelled. The source
  overwrites the `left`, `right`, `height` and `value` fields of existing
  node objects. The model builds the updated node as a new value instead,
  which matches everything the source's callers can observe, because each
  caller immediately stores the returned subtree. Sharing of node objects
  between the old and the new tree object held by the UI is not captured.
