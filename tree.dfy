/** The AVL tree engine's node, its cached heights and balance factors, the
    two single rotations, and the three invariants every public operation keeps
    (AVLTreeVisualizer.jsx, classes AVLNode and AVLTree).

    A subtree is a value: null is `Nil`, an AVLNode is `Node`.  Where the
    source overwrites a field of a node and hands the node back, the model
    returns the updated node and the caller puts it in its child slot, as the
    source's callers do with every result. */
module AvlTree {

  /** A subtree: null, or a node with its key, its two children and the
      height it has cached. */
  datatype Tree = Nil | Node(value: int, left: Tree, right: Tree, height: nat)

  function Max(a: nat, b: nat): nat { if a >= b then a else b }

  /** `new AVLNode(value)`: a leaf whose cached height is 1. */
  function NewNode(value: int): (r: Tree)
    ensures r.Node? && r.left.Nil? && r.right.Nil? && GetHeight(r) == 1
    ensures IsAVL(r) && Keys(r) == {value} && InOrder(r) == [value]
  {
    Node(value, Nil, Nil, 1)
  }

  /** getHeight: the cached height, 0 for null.  When every cache below is
      correct, this is the true height. */
  function GetHeight(t: Tree): (h: nat)
    ensures t.Nil? ==> h == 0
    ensures HeightCorrect(t) ==> h == Height(t)
  {
    if t.Nil? then 0 else t.height
  }

  /** getBalanceFactor: cached height of the left child minus that of the
      right child, 0 for null.  With correct caches it is the difference of
      the children's true heights. */
  function BalanceFactor(t: Tree): (b: int)
    ensures t.Nil? ==> b == 0
    ensures t.Node? && HeightCorrect(t) ==> b == Height(t.left) - Height(t.right)
  {
    if t.Nil? then 0 else GetHeight(t.left) - GetHeight(t.right)
  }

  /** `node.height = 1 + Math.max(getHeight(node.left), getHeight(node.right))`:
      the node's cache recomputed from its children's caches. */
  function UpdateHeight(t: Tree): (r: Tree)
    requires t.Node?
    ensures r.Node? && r.value == t.value && r.left == t.left && r.right == t.right
    ensures HeightCorrect(t.left) && HeightCorrect(t.right) ==> HeightCorrect(r)
  {
    t.(height := 1 + Max(GetHeight(t.left), GetHeight(t.right)))
  }

  // ---------------------------------------------------------------------
  // Reference definitions, recomputed from the shape alone

  /** The height of a subtree by its recursive definition. */
  function Height(t: Tree): nat {
    if t.Nil? then 0 else 1 + Max(Height(t.left), Height(t.right))
  }

  function Keys(t: Tree): set<int> {
    if t.Nil? then {} else Keys(t.left) + {t.value} + Keys(t.right)
  }

  /** The keys in in-order (left, node, right) order. */
  function InOrder(t: Tree): seq<int> {
    if t.Nil? then [] else InOrder(t.left) + [t.value] + InOrder(t.right)
  }

  function Size(t: Tree): nat {
    if t.Nil? then 0 else Size(t.left) + 1 + Size(t.right)
  }

  /** Invariant 1, BST ordering: left keys < node key < right keys, at every node. */
  ghost predicate Ordered(t: Tree) {
    t.Nil? ||
    ((forall k :: k in Keys(t.left) ==> k < t.value) &&
     (forall k :: k in Keys(t.right) ==> t.value < k) &&
     Ordered(t.left) && Ordered(t.right))
  }

  /** Invariant 2: at every node the two children's heights differ by at most one. */
  ghost predicate Balanced(t: Tree) {
    t.Nil? ||
    (-1 <= Height(t.left) - Height(t.right) <= 1 && Balanced(t.left) && Balanced(t.right))
  }

  /** Invariant 3: every cached height is the recursive height. */
  ghost predicate HeightCorrect(t: Tree) {
    t.Nil? || (t.height == Height(t) && HeightCorrect(t.left) && HeightCorrect(t.right))
  }

  /** The three invariants that hold after every public operation. */
  ghost predicate IsAVL(t: Tree) {
    Ordered(t) && Balanced(t) && HeightCorrect(t)
  }

  /** A node whose two children are AVL trees on the right sides of its key;
      its own balance and cached height are not constrained.  This is what a
      node looks like after a recursive call has replaced one child. */
  ghost predicate ChildrenAVL(t: Tree) {
    t.Node? && IsAVL(t.left) && IsAVL(t.right) &&
    (forall k :: k in Keys(t.left) ==> k < t.value) &&
    (forall k :: k in Keys(t.right) ==> t.value < k)
  }

  predicate Sorted(s: seq<int>) {
    forall i, j :: 0 <= i < j < |s| ==> s[i] < s[j]
  }

  lemma {:induction false} KeysAreInOrder(t: Tree)
    ensures forall x :: x in Keys(t) <==> x in InOrder(t)
    ensures |InOrder(t)| == Size(t)
  {
    if t.Node? {
      KeysAreInOrder(t.left);
      KeysAreInOrder(t.right);
    }
  }

  lemma SortedConcat(a: seq<int>, v: int, b: seq<int>)
    ensures Sorted(a + [v] + b) <==>
      Sorted(a) && Sorted(b) &&
      (forall x :: x in a ==> x < v) && (forall x :: x in b ==> v < x)
  {
    var s := a + [v] + b;
    if Sorted(a) && Sorted(b) && (forall x :: x in a ==> x < v) && (forall x :: x in b ==> v < x) {
      forall i, j | 0 <= i < j < |s| ensures s[i] < s[j] {
        if j < |a| {
        } else if j == |a| {
          assert s[i] == a[i] && a[i] in a;
        } else if i < |a| {
          assert s[i] == a[i] && a[i] in a;
          assert s[j] == b[j - |a| - 1] && b[j - |a| - 1] in b;
        } else if i == |a| {
          assert s[j] == b[j - |a| - 1] && b[j - |a| - 1] in b;
        } else {
          assert s[i] == b[i - |a| - 1] && s[j] == b[j - |a| - 1];
        }
      }
    }
    if Sorted(s) {
      forall i, j | 0 <= i < j < |a| ensures a[i] < a[j] {
        assert a[i] == s[i] && a[j] == s[j];
      }
      forall i, j | 0 <= i < j < |b| ensures b[i] < b[j] {
        assert b[i] == s[i + |a| + 1] && b[j] == s[j + |a| + 1];
      }
      forall x | x in a ensures x < v {
        var i :| 0 <= i < |a| && a[i] == x;
        assert s[i] == x && s[|a|] == v;
      }
      forall x | x in b ensures v < x {
        var i :| 0 <= i < |b| && b[i] == x;
        assert s[i + |a| + 1] == x && s[|a|] == v;
      }
    }
  }

  /** BST ordering holds exactly when the in-order key sequence is strictly
      increasing. */
  lemma {:induction false} OrderedIffSorted(t: Tree)
    ensures Ordered(t) <==> Sorted(InOrder(t))
  {
    if t.Node? {
      OrderedIffSorted(t.left);
      OrderedIffSorted(t.right);
      KeysAreInOrder(t.left);
      KeysAreInOrder(t.right);
      SortedConcat(InOrder(t.left), t.value, InOrder(t.right));
    }
  }

  // ---------------------------------------------------------------------
  // Rotations

  /** rotateRight(y): y's left child x becomes the root, y becomes x's right
      child and takes x's former right subtree T2 as its left child; y's
      cache is recomputed first, then x's. */
  function RotateRight(y: Tree): (r: Tree)
    requires y.Node? && y.left.Node?
    ensures r.Node? && r.right.Node?
    ensures r.value == y.left.value && r.left == y.left.left
    ensures r.right.value == y.value && r.right.left == y.left.right && r.right.right == y.right
    ensures r.right.height == 1 + Max(GetHeight(r.right.left), GetHeight(r.right.right))
    ensures r.height == 1 + Max(GetHeight(r.left), GetHeight(r.right))
    ensures InOrder(r) == InOrder(y) && Keys(r) == Keys(y) && Size(r) == Size(y)
  {
    var x := y.left;
    var t2 := x.right;
    var y' := UpdateHeight(y.(left := t2));
    UpdateHeight(x.(right := y'))
  }

  /** rotateLeft(x): the mirror image of RotateRight; x's cache is recomputed
      first, then that of the new root y. */
  function RotateLeft(x: Tree): (r: Tree)
    requires x.Node? && x.right.Node?
    ensures r.Node? && r.left.Node?
    ensures r.value == x.right.value && r.right == x.right.right
    ensures r.left.value == x.value && r.left.right == x.right.left && r.left.left == x.left
    ensures r.left.height == 1 + Max(GetHeight(r.left.left), GetHeight(r.left.right))
    ensures r.height == 1 + Max(GetHeight(r.left), GetHeight(r.right))
    ensures InOrder(r) == InOrder(x) && Keys(r) == Keys(x) && Size(r) == Size(x)
  {
    var y := x.right;
    var t2 := y.left;
    var x' := UpdateHeight(x.(right := t2));
    UpdateHeight(y.(left := x'))
  }

  /** Both rotations keep BST ordering, in both directions: they only
      rearrange nodes along the in-order sequence. */
  lemma RotationsKeepOrder(t: Tree)
    requires t.Node?
    ensures t.left.Node? ==> (Ordered(RotateRight(t)) <==> Ordered(t))
    ensures t.right.Node? ==> (Ordered(RotateLeft(t)) <==> Ordered(t))
  {
    OrderedIffSorted(t);
    if t.left.Node? {
      OrderedIffSorted(RotateRight(t));
    }
    if t.right.Node? {
      OrderedIffSorted(RotateLeft(t));
    }
  }

  /** Replacing one child by a subtree with the same in-order keys keeps the
      node's ordering. */
  lemma SameInOrderKeepsOrder(t: Tree, u: Tree)
    requires InOrder(t) == InOrder(u)
    ensures Ordered(t) <==> Ordered(u)
  {
    OrderedIffSorted(t);
    OrderedIffSorted(u);
  }

  // ---------------------------------------------------------------------
  // What the rotations achieve on a node whose children are AVL trees whose
  // heights differ by two (the only imbalance insert and delete produce)

  /** Single right rotation when the left child is not right-heavy: the
      result is an AVL tree with the same keys, one level lower unless the
      left child was level. */
  lemma RotateRightRebalances(t: Tree)
    requires ChildrenAVL(t) && t.left.Node?
    requires Height(t.left) == Height(t.right) + 2
    requires Height(t.left.left) >= Height(t.left.right)
    ensures IsAVL(RotateRight(t)) && Keys(RotateRight(t)) == Keys(t)
    ensures Height(RotateRight(t)) ==
      if Height(t.left.left) == Height(t.left.right) then Height(t.left) + 1 else Height(t.left)
  {
    var l := t.left;
    var r := RotateRight(t);
    assert HeightCorrect(r.right) && Balanced(r.right);
    assert Height(r.right) == 1 + Max(Height(l.right), Height(t.right));
    RotationsKeepOrder(t);
  }

  /** Mirror image of RotateRightRebalances. */
  lemma RotateLeftRebalances(t: Tree)
    requires ChildrenAVL(t) && t.right.Node?
    requires Height(t.right) == Height(t.left) + 2
    requires Height(t.right.right) >= Height(t.right.left)
    ensures IsAVL(RotateLeft(t)) && Keys(RotateLeft(t)) == Keys(t)
    ensures Height(RotateLeft(t)) ==
      if Height(t.right.right) == Height(t.right.left) then Height(t.right) + 1 else Height(t.right)
  {
    var rt := t.right;
    var r := RotateLeft(t);
    assert HeightCorrect(r.left) && Balanced(r.left);
    assert Height(r.left) == 1 + Max(Height(t.left), Height(rt.left));
    RotationsKeepOrder(t);
  }

  /** Left-right double rotation when the left child is right-heavy: the
      left child's right child rises to the root, and the result is an AVL
      tree with the same keys, one level lower. */
  lemma RotateLeftRightRebalances(t: Tree)
    requires ChildrenAVL(t) && t.left.Node?
    requires Height(t.left) == Height(t.right) + 2
    requires Height(t.left.left) < Height(t.left.right)
    ensures t.left.right.Node?
    ensures var r := RotateRight(t.(left := RotateLeft(t.left)));
      IsAVL(r) && Keys(r) == Keys(t) && Height(r) == Height(t.left)
  {
    RotateLeftRightBalances(t);
    var t' := t.(left := RotateLeft(t.left));
    assert Keys(t') == Keys(t);
    assert Ordered(t);
    assert InOrder(t') == InOrder(t);
    SameInOrderKeepsOrder(t, t');
    RotationsKeepOrder(t');
  }

  /** The balance and height half of RotateLeftRightRebalances. */
  lemma RotateLeftRightBalances(t: Tree)
    requires ChildrenAVL(t) && t.left.Node?
    requires Height(t.left) == Height(t.right) + 2
    requires Height(t.left.left) < Height(t.left.right)
    ensures t.left.right.Node?
    ensures var r := RotateRight(t.(left := RotateLeft(t.left)));
      Balanced(r) && HeightCorrect(r) && Height(r) == Height(t.left)
  {
    var l := t.left;
    var lr := l.right;
    var t' := t.(left := RotateLeft(l));
    var r := RotateRight(t');
    assert r.left == Node(l.value, l.left, lr.left, r.left.height);
    assert r.right == Node(t.value, lr.right, t.right, r.right.height);
    assert Height(lr) == Height(l.left) + 1;
    Unfold(l);
    Unfold(lr);
    assert Height(l.left) == Height(t.right);
    Join(r.left);
    Join(r.right);
    assert Height(r.left) == Height(t.right) + 1 && Height(r.right) == Height(t.right) + 1;
    Join(r);
  }

  /** Mirror image of RotateLeftRightRebalances. */
  lemma RotateRightLeftRebalances(t: Tree)
    requires ChildrenAVL(t) && t.right.Node?
    requires Height(t.right) == Height(t.left) + 2
    requires Height(t.right.right) < Height(t.right.left)
    ensures t.right.left.Node?
    ensures var r := RotateLeft(t.(right := RotateRight(t.right)));
      IsAVL(r) && Keys(r) == Keys(t) && Height(r) == Height(t.right)
  {
    RotateRightLeftBalances(t);
    var t' := t.(right := RotateRight(t.right));
    assert Keys(t') == Keys(t);
    assert Ordered(t);
    assert InOrder(t') == InOrder(t);
    SameInOrderKeepsOrder(t, t');
    RotationsKeepOrder(t');
  }

  /** The balance and height half of RotateRightLeftRebalances. */
  lemma RotateRightLeftBalances(t: Tree)
    requires ChildrenAVL(t) && t.right.Node?
    requires Height(t.right) == Height(t.left) + 2
    requires Height(t.right.right) < Height(t.right.left)
    ensures t.right.left.Node?
    ensures var r := RotateLeft(t.(right := RotateRight(t.right)));
      Balanced(r) && HeightCorrect(r) && Height(r) == Height(t.right)
  {
    var rt := t.right;
    var rl := rt.left;
    var t' := t.(right := RotateRight(rt));
    var r := RotateLeft(t');
    assert r.left == Node(t.value, t.left, rl.left, r.left.height);
    assert r.right == Node(rt.value, rl.right, rt.right, r.right.height);
    assert Height(rl) == Height(rt.right) + 1;
    Unfold(rt);
    Unfold(rl);
    assert Height(rt.right) == Height(t.left);
    Join(r.left);
    Join(r.right);
    assert Height(r.left) == Height(t.left) + 1 && Height(r.right) == Height(t.left) + 1;
    Join(r);
  }

  /** One level of the AVL invariants of a non-empty tree. */
  lemma Unfold(t: Tree)
    requires t.Node? && IsAVL(t)
    ensures ChildrenAVL(t) && t.height == Height(t)
    ensures -1 <= Height(t.left) - Height(t.right) <= 1
  {
  }

  /** A node over two balanced subtrees with correct caches, whose heights
      differ by at most one and whose own cache was recomputed from theirs,
      is balanced and has correct caches. */
  lemma Join(n: Tree)
    requires n.Node?
    requires Balanced(n.left) && HeightCorrect(n.left)
    requires Balanced(n.right) && HeightCorrect(n.right)
    requires -1 <= Height(n.left) - Height(n.right) <= 1
    requires n.height == 1 + Max(GetHeight(n.left), GetHeight(n.right))
    ensures Balanced(n) && HeightCorrect(n)
  {
  }
}
