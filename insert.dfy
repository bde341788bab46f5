/** AVLTree.insert (AVLTreeVisualizer.jsx): BST insertion that refreshes the
    cached height on the way back up and repairs an imbalance of two with one
    of four rotations, chosen by comparing the inserted key with the key of
    the taller child. */
module AvlInsert {
  import opened AvlTree

  /** The children the zig-zag cases dereference are present: when the
      left-right case is taken, `node.left.right` is not null (rotateLeft
      reads it), and when the right-left case is taken, `node.right.left` is
      not null.  The straight cases need only the taller child, which an
      imbalance above one already guarantees. */
  predicate ZigZagChildren(node: Tree, value: int)
    requires node.Node?
  {
    var balance := BalanceFactor(UpdateHeight(node));
    (balance > 1 && value > node.left.value ==> node.left.right.Node?) &&
    (balance < -1 && value < node.right.value ==> node.right.left.Node?)
  }

  /** The tail of insert after a child slot has been reassigned: refresh the
      cache, then the four guarded cases in the source's order; none of them
      applies when the node is balanced.  Whichever case is taken, the keys
      keep their in-order sequence. */
  function InsertRebalance(node: Tree, value: int): (r: Tree)
    requires node.Node? && ZigZagChildren(node, value)
    ensures r.Node? && InOrder(r) == InOrder(node) && Keys(r) == Keys(node)
    ensures -1 <= BalanceFactor(UpdateHeight(node)) <= 1 ==> r == UpdateHeight(node)
  {
    var n := UpdateHeight(node);
    var balance := BalanceFactor(n);
    if balance > 1 && value < n.left.value then RotateRight(n)
    else if balance < -1 && value > n.right.value then RotateLeft(n)
    else if balance > 1 && value > n.left.value then RotateRight(n.(left := RotateLeft(n.left)))
    else if balance < -1 && value < n.right.value then RotateLeft(n.(right := RotateRight(n.right)))
    else n
  }

  /** A subtree that has just grown by one level because `value` went into
      it: its root holds another key, and it is one level taller on the side
      where `value` went. */
  ghost predicate LeansToward(t: Tree, value: int) {
    t.Node? && value != t.value &&
    (value < t.value ==> Height(t.left) == Height(t.right) + 1) &&
    (value > t.value ==> Height(t.right) == Height(t.left) + 1)
  }

  /** What InsertRebalance does to a node whose child has just received
      `value`: the child that is two levels taller leans toward `value`, so
      comparing `value` with that child's key picks the straight case
      exactly when the child leans outward; the chosen rotation (or none,
      when the node is balanced) yields an AVL tree with the same keys. */
  lemma InsertRebalanceCorrect(node: Tree, value: int)
    requires ChildrenAVL(node)
    requires -2 <= Height(node.left) - Height(node.right) <= 2
    requires Height(node.left) == Height(node.right) + 2 ==> LeansToward(node.left, value)
    requires Height(node.right) == Height(node.left) + 2 ==> LeansToward(node.right, value)
    ensures ZigZagChildren(node, value)
    ensures IsAVL(InsertRebalance(node, value))
    ensures Keys(InsertRebalance(node, value)) == Keys(node)
    ensures -1 <= Height(node.left) - Height(node.right) <= 1 ==>
      InsertRebalance(node, value) == UpdateHeight(node)
    ensures Height(node.left) - Height(node.right) in {-2, 2} ==>
      Height(InsertRebalance(node, value)) + 1 == Height(node)
  {
    var n := UpdateHeight(node);
    assert BalanceFactor(n) == Height(node.left) - Height(node.right);
    if Height(node.left) == Height(node.right) + 2 {
      InsertRebalanceLeftHeavy(node, value);
    } else if Height(node.right) == Height(node.left) + 2 {
      InsertRebalanceRightHeavy(node, value);
    } else {
      assert InsertRebalance(node, value) == n;
      Join(n);
    }
  }

  /** The left child is two levels taller and leans toward `value`: the
      right rotation (outside) or the left-right double rotation (inside)
      restores balance one level lower. */
  lemma InsertRebalanceLeftHeavy(node: Tree, value: int)
    requires ChildrenAVL(node)
    requires Height(node.left) == Height(node.right) + 2 && LeansToward(node.left, value)
    ensures ZigZagChildren(node, value)
    ensures IsAVL(InsertRebalance(node, value))
    ensures Keys(InsertRebalance(node, value)) == Keys(node)
    ensures Height(InsertRebalance(node, value)) + 1 == Height(node)
  {
    var n := UpdateHeight(node);
    assert BalanceFactor(n) == Height(node.left) - Height(node.right);
    var l := node.left;
    Unfold(l);
    if value < l.value {
      assert InsertRebalance(node, value) == RotateRight(n);
      RotateRightRebalances(n);
    } else {
      assert InsertRebalance(node, value) == RotateRight(n.(left := RotateLeft(n.left)));
      RotateLeftRightRebalances(n);
    }
  }

  /** Mirror image of InsertRebalanceLeftHeavy. */
  lemma InsertRebalanceRightHeavy(node: Tree, value: int)
    requires ChildrenAVL(node)
    requires Height(node.right) == Height(node.left) + 2 && LeansToward(node.right, value)
    ensures ZigZagChildren(node, value)
    ensures IsAVL(InsertRebalance(node, value))
    ensures Keys(InsertRebalance(node, value)) == Keys(node)
    ensures Height(InsertRebalance(node, value)) + 1 == Height(node)
  {
    var n := UpdateHeight(node);
    assert BalanceFactor(n) == Height(node.left) - Height(node.right);
    var r := node.right;
    Unfold(r);
    if value > r.value {
      assert InsertRebalance(node, value) == RotateLeft(n);
      RotateLeftRebalances(n);
    } else {
      assert InsertRebalance(node, value) == RotateLeft(n.(right := RotateRight(n.right)));
      RotateRightLeftRebalances(n);
    }
  }

  /** The contract of insert on an AVL tree `node`, as a relation between
      the inserted key and the result `r`. */
  ghost predicate InsertsInto(node: Tree, value: int, r: Tree) {
    IsAVL(r) && r.Node? &&
    Keys(r) == Keys(node) + {value} &&
    (value in Keys(node) ==> r == node) &&
    Height(node) <= Height(r) <= Height(node) + 1 &&
    (Height(r) == Height(node) + 1 ==> node.Nil? || LeansToward(r, value))
  }

  /** On an AVL node the refresh and the rotation guards hand the node back
      untouched, whatever the key; this is why a duplicate insert returns the
      same subtree all the way up. */
  lemma InsertRebalanceUntouched(node: Tree, value: int)
    requires IsAVL(node) && node.Node?
    ensures ZigZagChildren(node, value) && InsertRebalance(node, value) == node
  {
    Unfold(node);
    assert UpdateHeight(node) == node;
  }

  /** The step of insert below the root: once the left child has become `l`
      (the recursive result), rebalancing completes the insertion. */
  lemma InsertedLeft(node: Tree, value: int, l: Tree)
    requires IsAVL(node) && node.Node? && value < node.value
    requires InsertsInto(node.left, value, l)
    ensures ZigZagChildren(node.(left := l), value)
    ensures InsertsInto(node, value, InsertRebalance(node.(left := l), value))
  {
    Unfold(node);
    if value in Keys(node) {
      assert Keys(node) == Keys(node.left) + {node.value} + Keys(node.right);
      assert value !in Keys(node.right);
      assert value in Keys(node.left) && l == node.left;
      assert node.(left := l) == node;
      InsertRebalanceUntouched(node, value);
    } else {
      InsertedAbsentLeft(node, value, l);
    }
  }

  /** Mirror image of InsertedLeft. */
  lemma InsertedRight(node: Tree, value: int, r: Tree)
    requires IsAVL(node) && node.Node? && value > node.value
    requires InsertsInto(node.right, value, r)
    ensures ZigZagChildren(node.(right := r), value)
    ensures InsertsInto(node, value, InsertRebalance(node.(right := r), value))
  {
    Unfold(node);
    if value in Keys(node) {
      assert Keys(node) == Keys(node.left) + {node.value} + Keys(node.right);
      assert value !in Keys(node.left);
      assert value in Keys(node.right) && r == node.right;
      assert node.(right := r) == node;
      InsertRebalanceUntouched(node, value);
    } else {
      InsertedAbsentRight(node, value, r);
    }
  }

  /** InsertedLeft for a key new to the tree. */
  lemma InsertedAbsentLeft(node: Tree, value: int, l: Tree)
    requires IsAVL(node) && node.Node? && value < node.value && value !in Keys(node)
    requires InsertsInto(node.left, value, l)
    ensures ZigZagChildren(node.(left := l), value)
    ensures InsertsInto(node, value, InsertRebalance(node.(left := l), value))
  {
    Unfold(node);
    var n := node.(left := l);
    InsertRebalanceCorrect(n, value);
    if Height(l) == Height(node.right) + 2 {
      assert Height(InsertRebalance(n, value)) == Height(node);
    } else {
      assert InsertRebalance(n, value) == UpdateHeight(n);
    }
  }

  /** InsertedRight for a key new to the tree. */
  lemma InsertedAbsentRight(node: Tree, value: int, r: Tree)
    requires IsAVL(node) && node.Node? && value > node.value && value !in Keys(node)
    requires InsertsInto(node.right, value, r)
    ensures ZigZagChildren(node.(right := r), value)
    ensures InsertsInto(node, value, InsertRebalance(node.(right := r), value))
  {
    Unfold(node);
    var n := node.(right := r);
    InsertRebalanceCorrect(n, value);
    if Height(r) == Height(node.left) + 2 {
      assert Height(InsertRebalance(n, value)) == Height(node);
    } else {
      assert InsertRebalance(n, value) == UpdateHeight(n);
    }
  }

  /** insert(node, value) on an AVL tree.  A key already present returns the
      very same subtree; otherwise the result is an AVL tree holding exactly
      one key more, at most one level taller, and when it did grow, its root
      leans toward the new key (which is what lets the caller's guard pick
      the right rotation). */
  function Insert(node: Tree, value: int): (r: Tree)
    requires IsAVL(node)
    ensures IsAVL(r) && r.Node?
    ensures Keys(r) == Keys(node) + {value}
    ensures value in Keys(node) ==> r == node
    ensures Height(node) <= Height(r) <= Height(node) + 1
    ensures Height(r) == Height(node) + 1 ==> node.Nil? || LeansToward(r, value)
  {
    if node.Nil? then NewNode(value)
    else if value < node.value then
      var l := Insert(node.left, value);
      InsertedLeft(node, value, l);
      InsertRebalance(node.(left := l), value)
    else if value > node.value then
      var r := Insert(node.right, value);
      InsertedRight(node, value, r);
      InsertRebalance(node.(right := r), value)
    else
      node
  }
}
