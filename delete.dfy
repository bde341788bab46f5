/** AVLTree.deleteNode and AVLTree.findMin (AVLTreeVisualizer.jsx): BST
    deletion that splices out a node with at most one child, or gives a node
    with two children the key of its in-order successor and deletes that key
    from the right subtree; every node on the way back up then has its cache
    refreshed and is rebalanced, the rotation chosen by the balance factor of
    the taller child. */
module AvlDelete {
  import opened AvlTree

  /** The node findMin stops at: follow left children while there is one. */
  function Leftmost(t: Tree): (m: Tree)
    requires t.Node?
    ensures m.Node? && m.left.Nil?
    ensures m.value in Keys(t) && m.value == InOrder(t)[0]
    ensures Ordered(t) ==> forall k :: k in Keys(t) ==> m.value <= k
  {
    if t.left.Nil? then t else Leftmost(t.left)
  }

  /** findMin(node): walks left until the left child is null.  It ends (each
      step moves to a strictly smaller subtree) at the leftmost node, which
      holds the first key in in-order and, in a BST, the least. */
  method FindMin(node: Tree) returns (m: Tree)
    requires node.Node?
    ensures m == Leftmost(node)
    ensures m.left.Nil? && m.value in Keys(node)
    ensures Ordered(node) ==> forall k :: k in Keys(node) ==> m.value <= k
  {
    m := node;
    while m.left.Node?
      invariant m.Node? && Leftmost(m) == Leftmost(node)
      decreases m
    {
      m := m.left;
    }
  }

  /** The tail of deleteNode for a non-null node: refresh the cache, then the
      four guarded cases in the source's order; a balanced node is only
      refreshed, and every case keeps the in-order key sequence.  Every
      rotation here has the child it needs: a balance factor below zero means the right grandchild
      has a positive cached height, so it is not null (and symmetrically). */
  function DeleteRebalance(node: Tree): (r: Tree)
    requires node.Node?
    ensures r.Node? && InOrder(r) == InOrder(node) && Keys(r) == Keys(node)
    ensures -1 <= BalanceFactor(UpdateHeight(node)) <= 1 ==> r == UpdateHeight(node)
  {
    var n := UpdateHeight(node);
    var balance := BalanceFactor(n);
    if balance > 1 && BalanceFactor(n.left) >= 0 then RotateRight(n)
    else if balance > 1 && BalanceFactor(n.left) < 0 then RotateRight(n.(left := RotateLeft(n.left)))
    else if balance < -1 && BalanceFactor(n.right) <= 0 then RotateLeft(n)
    else if balance < -1 && BalanceFactor(n.right) > 0 then RotateLeft(n.(right := RotateRight(n.right)))
    else n
  }

  /** What DeleteRebalance does to a node whose children are AVL trees of
      heights at most two apart: the result is an AVL tree with the same keys,
      the node itself (cache refreshed) when it was balanced, and never taller
      than the node nor more than one level lower. */
  lemma DeleteRebalanceCorrect(node: Tree)
    requires ChildrenAVL(node)
    requires -2 <= Height(node.left) - Height(node.right) <= 2
    ensures IsAVL(DeleteRebalance(node)) && Keys(DeleteRebalance(node)) == Keys(node)
    ensures -1 <= Height(node.left) - Height(node.right) <= 1 ==>
      DeleteRebalance(node) == UpdateHeight(node)
    ensures Height(node) - 1 <= Height(DeleteRebalance(node)) <= Height(node)
  {
    var n := UpdateHeight(node);
    assert BalanceFactor(n) == Height(node.left) - Height(node.right);
    if Height(node.left) == Height(node.right) + 2 {
      DeleteRebalanceLeftHeavy(node);
    } else if Height(node.right) == Height(node.left) + 2 {
      DeleteRebalanceRightHeavy(node);
    } else {
      assert DeleteRebalance(node) == n;
      Join(n);
    }
  }

  /** The left child is two levels taller: a left child that is not
      right-heavy takes one right rotation, a right-heavy one the left-right
      double rotation. */
  lemma DeleteRebalanceLeftHeavy(node: Tree)
    requires ChildrenAVL(node)
    requires Height(node.left) == Height(node.right) + 2
    ensures IsAVL(DeleteRebalance(node)) && Keys(DeleteRebalance(node)) == Keys(node)
    ensures Height(node) - 1 <= Height(DeleteRebalance(node)) <= Height(node)
  {
    var n := UpdateHeight(node);
    assert BalanceFactor(n) == Height(node.left) - Height(node.right);
    var l := node.left;
    Unfold(l);
    if Height(l.left) >= Height(l.right) {
      assert DeleteRebalance(node) == RotateRight(n);
      RotateRightRebalances(n);
    } else {
      assert DeleteRebalance(node) == RotateRight(n.(left := RotateLeft(n.left)));
      RotateLeftRightRebalances(n);
    }
  }

  /** Mirror image of DeleteRebalanceLeftHeavy. */
  lemma DeleteRebalanceRightHeavy(node: Tree)
    requires ChildrenAVL(node)
    requires Height(node.right) == Height(node.left) + 2
    ensures IsAVL(DeleteRebalance(node)) && Keys(DeleteRebalance(node)) == Keys(node)
    ensures Height(node) - 1 <= Height(DeleteRebalance(node)) <= Height(node)
  {
    var n := UpdateHeight(node);
    assert BalanceFactor(n) == Height(node.left) - Height(node.right);
    var r := node.right;
    Unfold(r);
    if Height(r.right) >= Height(r.left) {
      assert DeleteRebalance(node) == RotateLeft(n);
      RotateLeftRebalances(n);
    } else {
      assert DeleteRebalance(node) == RotateLeft(n.(right := RotateRight(n.right)));
      RotateRightLeftRebalances(n);
    }
  }

  /** The contract of deleteNode on an AVL tree `node`, as a relation between
      the deleted key and the result `r`. */
  ghost predicate DeletesFrom(node: Tree, value: int, r: Tree) {
    IsAVL(r) &&
    Keys(r) == Keys(node) - {value} &&
    (value !in Keys(node) ==> r == node) &&
    Height(node) - 1 <= Height(r) <= Height(node)
  }

  /** A key not in the tree: deleteNode hands every node on the search path
      back untouched. */
  lemma DeletedAbsent(node: Tree)
    requires IsAVL(node) && node.Node?
    ensures DeleteRebalance(node) == node
  {
    Unfold(node);
    assert UpdateHeight(node) == node;
  }

  /** The step of deleteNode below the root, on the left: once the left child
      has become `l` (the recursive result), rebalancing completes the
      deletion. */
  lemma DeletedLeft(node: Tree, value: int, l: Tree)
    requires IsAVL(node) && node.Node? && value < node.value
    requires DeletesFrom(node.left, value, l)
    ensures DeletesFrom(node, value, DeleteRebalance(node.(left := l)))
  {
    Unfold(node);
    if value !in Keys(node) {
      assert value !in Keys(node.left) && l == node.left;
      assert node.(left := l) == node;
      DeletedAbsent(node);
    } else {
      DeletedPresentLeft(node, value, l);
    }
  }

  /** Mirror image of DeletedLeft. */
  lemma DeletedRight(node: Tree, value: int, r: Tree)
    requires IsAVL(node) && node.Node? && value > node.value
    requires DeletesFrom(node.right, value, r)
    ensures DeletesFrom(node, value, DeleteRebalance(node.(right := r)))
  {
    Unfold(node);
    if value !in Keys(node) {
      assert value !in Keys(node.right) && r == node.right;
      assert node.(right := r) == node;
      DeletedAbsent(node);
    } else {
      DeletedPresentRight(node, value, r);
    }
  }

  /** DeletedLeft for a key that is in the tree. */
  lemma DeletedPresentLeft(node: Tree, value: int, l: Tree)
    requires IsAVL(node) && node.Node? && value < node.value && value in Keys(node)
    requires DeletesFrom(node.left, value, l)
    ensures DeletesFrom(node, value, DeleteRebalance(node.(left := l)))
  {
    Unfold(node);
    var n := node.(left := l);
    DeleteRebalanceCorrect(n);
    assert Keys(n) == Keys(node) - {value};
  }

  /** DeletedRight for a key that is in the tree. */
  lemma DeletedPresentRight(node: Tree, value: int, r: Tree)
    requires IsAVL(node) && node.Node? && value > node.value && value in Keys(node)
    requires DeletesFrom(node.right, value, r)
    ensures DeletesFrom(node, value, DeleteRebalance(node.(right := r)))
  {
    Unfold(node);
    var n := node.(right := r);
    DeleteRebalanceCorrect(n);
    assert Keys(n) == Keys(node) - {value};
  }

  /** A node with at most one child is replaced by that child (or null), and
      the child, already an AVL tree, comes through the height refresh and
      the rebalancing unchanged. */
  lemma DeletedOnlyChild(node: Tree)
    requires IsAVL(node) && node.Node? && (node.left.Nil? || node.right.Nil?)
    ensures var child := if node.left.Node? then node.left else node.right;
      child.Node? ==> DeleteRebalance(child) == child
    ensures var child := if node.left.Node? then node.left else node.right;
      DeletesFrom(node, node.value, if child.Nil? then child else DeleteRebalance(child))
  {
    Unfold(node);
    var child := if node.left.Node? then node.left else node.right;
    if child.Node? {
      Unfold(child);
      assert UpdateHeight(child) == child;
      DeleteRebalanceCorrect(child);
    }
    assert Keys(child) == Keys(node) - {node.value};
  }

  /** A node with two children takes the key of the least node of its right
      subtree; once that key has been deleted from the right subtree (giving
      `r`), rebalancing completes the deletion of the node's own key. */
  lemma DeletedSuccessor(node: Tree, r: Tree)
    requires IsAVL(node) && node.Node? && node.left.Node? && node.right.Node?
    requires DeletesFrom(node.right, Leftmost(node.right).value, r)
    ensures DeletesFrom(node, node.value,
      DeleteRebalance(node.(value := Leftmost(node.right).value, right := r)))
  {
    SuccessorTakesPlace(node, r);
    DeleteRebalanceCorrect(node.(value := Leftmost(node.right).value, right := r));
  }

  /** The node that has taken its successor's key, over the right subtree
      without that key, is ordered: every left key is below the successor
      (which lies above the old key) and every remaining right key above it.
      It holds exactly the old keys but the node's own. */
  lemma SuccessorTakesPlace(node: Tree, r: Tree)
    requires IsAVL(node) && node.Node? && node.left.Node? && node.right.Node?
    requires DeletesFrom(node.right, Leftmost(node.right).value, r)
    ensures ChildrenAVL(node.(value := Leftmost(node.right).value, right := r))
    ensures Keys(node.(value := Leftmost(node.right).value, right := r)) == Keys(node) - {node.value}
  {
    Unfold(node);
    SuccessorAboveLeft(node);
    SuccessorBelowRest(node.right, r);
    assert Leftmost(node.right).value in Keys(node.right);
  }

  /** Once the least key of a BST has been deleted, every remaining key lies
      above it. */
  lemma SuccessorBelowRest(t: Tree, r: Tree)
    requires IsAVL(t) && t.Node? && Keys(r) == Keys(t) - {Leftmost(t).value}
    ensures forall k :: k in Keys(r) ==> Leftmost(t).value < k
  {
    var m := Leftmost(t).value;
    forall k | k in Keys(r)
      ensures m < k
    {
      assert k in Keys(t) && k != m;
    }
  }

  /** The successor lies above the node's key, and so above every key of
      the left subtree. */
  lemma SuccessorAboveLeft(node: Tree)
    requires IsAVL(node) && node.Node? && node.right.Node?
    ensures node.value < Leftmost(node.right).value
    ensures forall k :: k in Keys(node.left) ==> k < Leftmost(node.right).value
  {
    Unfold(node);
    var m := Leftmost(node.right);
    assert m.value in Keys(node.right);
  }

  /** deleteNode(node, value) on an AVL tree.  An absent key gives back the
      very same subtree (the search reaches null and every node on the way
      back is already balanced with a correct cache); a present key leaves an
      AVL tree holding exactly the other keys, at most one level lower. */
  function Delete(node: Tree, value: int): (r: Tree)
    requires IsAVL(node)
    ensures IsAVL(r)
    ensures Keys(r) == Keys(node) - {value}
    ensures value !in Keys(node) ==> r == node
    ensures Height(node) - 1 <= Height(r) <= Height(node)
  {
    if node.Nil? then node
    else if value < node.value then
      Unfold(node);
      var l := Delete(node.left, value);
      DeletedLeft(node, value, l);
      DeleteRebalance(node.(left := l))
    else if value > node.value then
      Unfold(node);
      var r := Delete(node.right, value);
      DeletedRight(node, value, r);
      DeleteRebalance(node.(right := r))
    else if node.left.Nil? || node.right.Nil? then
      DeletedOnlyChild(node);
      var child := if node.left.Node? then node.left else node.right;
      if child.Nil? then child else DeleteRebalance(child)
    else
      Unfold(node);
      var successor := Leftmost(node.right).value;
      var r := Delete(node.right, successor);
      DeletedSuccessor(node, r);
      DeleteRebalance(node.(value := successor, right := r))
  }
}
