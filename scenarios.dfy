/** Concrete runs of the engine: the four rotation cases on three keys, a
    deletion that promotes an in-order successor, and the behaviour of
    repeated or absent keys. */
module AvlScenarios {
  import opened AvlTree
  import opened AvlInsert
  import opened AvlDelete

  /** The balanced tree on 10, 20, 30 that all four three-key insertion
      orders below end in. */
  function Balanced3(): Tree {
    Node(20, NewNode(10), NewNode(30), 2)
  }

  /** Inserting 10, 20, 30: the root becomes right-heavy by two on the
      outside, and one left rotation at the root makes 20 the root. */
  lemma InsertAscending()
    ensures Insert(Insert(Insert(Nil, 10), 20), 30) == Balanced3()
  {
    var t1 := Insert(Nil, 10);
    assert t1 == NewNode(10);
    var t2 := Insert(t1, 20);
    assert t2 == Node(10, Nil, NewNode(20), 2);
  }

  /** Inserting 30, 20, 10: one right rotation at the root. */
  lemma InsertDescending()
    ensures Insert(Insert(Insert(Nil, 30), 20), 10) == Balanced3()
  {
    var t1 := Insert(Nil, 30);
    assert t1 == NewNode(30);
    var t2 := Insert(t1, 20);
    assert t2 == Node(30, NewNode(20), Nil, 2);
  }

  /** Inserting 30, 10, 20: the left child leans right, so a left rotation
      of the left child precedes the right rotation at the root. */
  lemma InsertLeftRight()
    ensures Insert(Insert(Insert(Nil, 30), 10), 20) == Balanced3()
  {
    var t1 := Insert(Nil, 30);
    assert t1 == NewNode(30);
    var t2 := Insert(t1, 10);
    assert t2 == Node(30, NewNode(10), Nil, 2);
  }

  /** Inserting 10, 30, 20: the right child leans left, so a right rotation
      of the right child precedes the left rotation at the root. */
  lemma InsertRightLeft()
    ensures Insert(Insert(Insert(Nil, 10), 30), 20) == Balanced3()
  {
    var t1 := Insert(Nil, 10);
    assert t1 == NewNode(10);
    var t2 := Insert(t1, 30);
    assert t2 == Node(10, Nil, NewNode(30), 2);
  }

  /** The perfect tree on 5, 10, 15, 20, 25, 30, 35, built by inserting
      20, 10, 30, 5, 15, 25, 35 (no rotation is needed). */
  function Perfect7(): Tree {
    Node(20, Node(10, NewNode(5), NewNode(15), 2), Node(30, NewNode(25), NewNode(35), 2), 3)
  }

  /** Inserting a new key into a single leaf hangs it on the matching side;
      the two-node tree needs no rotation. */
  lemma InsertIntoLeaf(value: int, key: int)
    requires key != value
    ensures Insert(NewNode(value), key) ==
      if key < value then Node(value, NewNode(key), Nil, 2) else Node(value, Nil, NewNode(key), 2)
  {
    assert Insert(Nil, key) == NewNode(key);
  }

  /** The trees the seven insertions pass through; each is an AVL tree,
      and each step follows from the one before it. */
  lemma Perfect7Step1()
    ensures Insert(Nil, 20) == NewNode(20)
  {
  }

  lemma Perfect7Step2()
    ensures IsAVL(NewNode(20)) && Insert(NewNode(20), 10) == Node(20, NewNode(10), Nil, 2)
  {
    Perfect7Step1();
  }

  lemma Perfect7Step3()
    ensures IsAVL(Node(20, NewNode(10), Nil, 2))
    ensures Insert(Node(20, NewNode(10), Nil, 2), 30) == Balanced3()
  {
    Perfect7Step2();
  }

  lemma Perfect7Step4()
    ensures IsAVL(Balanced3())
    ensures Insert(Balanced3(), 5) == Node(20, Node(10, NewNode(5), Nil, 2), NewNode(30), 3)
  {
    Perfect7Step3();
    InsertIntoLeaf(10, 5);
  }

  lemma Perfect7Step5()
    ensures IsAVL(Node(20, Node(10, NewNode(5), Nil, 2), NewNode(30), 3))
    ensures Insert(Node(20, Node(10, NewNode(5), Nil, 2), NewNode(30), 3), 15) ==
      Node(20, Node(10, NewNode(5), NewNode(15), 2), NewNode(30), 3)
  {
    Perfect7Step4();
  }

  lemma Perfect7Step6()
    ensures IsAVL(Node(20, Node(10, NewNode(5), NewNode(15), 2), NewNode(30), 3))
    ensures Insert(Node(20, Node(10, NewNode(5), NewNode(15), 2), NewNode(30), 3), 25) ==
      Node(20, Node(10, NewNode(5), NewNode(15), 2), Node(30, NewNode(25), Nil, 2), 3)
  {
    Perfect7Step5();
    InsertIntoLeaf(30, 25);
  }

  lemma Perfect7Step7()
    ensures IsAVL(Node(20, Node(10, NewNode(5), NewNode(15), 2), Node(30, NewNode(25), Nil, 2), 3))
    ensures Insert(Node(20, Node(10, NewNode(5), NewNode(15), 2), Node(30, NewNode(25), Nil, 2), 3), 35) ==
      Perfect7()
  {
    Perfect7Step6();
  }

  /** Inserting 20, 10, 30, 5, 15, 25, 35 builds the perfect tree, an AVL
      tree, without a single rotation. */
  lemma BuildPerfect7()
    ensures Insert(Insert(Insert(Insert(Insert(Insert(Insert(
      Nil, 20), 10), 30), 5), 15), 25), 35) == Perfect7()
    ensures IsAVL(Perfect7())
  {
    Perfect7Step1();
    Perfect7Step2();
    Perfect7Step3();
    Perfect7Step4();
    Perfect7Step5();
    Perfect7Step6();
    Perfect7Step7();
  }

  /** Deleting 10 from the subtree 10(5, 15): 10 has two children, so it
      takes the key of its in-order successor 15, which is then removed from
      the right subtree; the node stays balanced (it leans left by one). */
  lemma DeleteSuccessorPromoted()
    ensures Delete(Node(10, NewNode(5), NewNode(15), 2), 10) == Node(15, NewNode(5), Nil, 2)
  {
    assert Leftmost(NewNode(15)).value == 15;
    assert Delete(NewNode(15), 15) == Nil;
    assert UpdateHeight(Node(15, NewNode(5), Nil, 2)) == Node(15, NewNode(5), Nil, 2);
  }

  /** Deleting 10 from the seven-key tree: the root keeps its height and
      balance. */
  lemma DeleteWithSuccessor()
    ensures Delete(Perfect7(), 10) ==
      Node(20, Node(15, NewNode(5), Nil, 2), Node(30, NewNode(25), NewNode(35), 2), 3)
  {
    var t := Perfect7();
    BuildPerfect7();
    assert Delete(t, 10) == DeleteRebalance(t.(left := Delete(t.left, 10)));
    DeleteSuccessorPromoted();
    assert t.left == Node(10, NewNode(5), NewNode(15), 2);
    var result := Node(20, Node(15, NewNode(5), Nil, 2), t.right, 3);
    assert t.(left := Delete(t.left, 10)) == result;
    assert UpdateHeight(result) == result;
  }

  /** The tree left by that deletion is an AVL tree holding exactly the six
      other keys. */
  lemma DeleteWithSuccessorKeys()
    ensures IsAVL(Delete(Perfect7(), 10))
    ensures Keys(Delete(Perfect7(), 10)) == {5, 15, 20, 25, 30, 35}
  {
    var left := Node(15, NewNode(5), Nil, 2);
    var right := Node(30, NewNode(25), NewNode(35), 2);
    assert Keys(Node(20, left, right, 3)) == {5, 15, 20, 25, 30, 35};
    BuildPerfect7();
    DeleteWithSuccessor();
  }

  /** Inserting a key twice is the same as inserting it once. */
  lemma InsertIdempotent(t: Tree, value: int)
    requires IsAVL(t)
    ensures Insert(Insert(t, value), value) == Insert(t, value)
  {
  }

  /** Membership after the operations: a key is present right after it is
      inserted and absent right after it is deleted, and deleting a key just
      inserted into a tree that lacked it gives back the original key set. */
  lemma Membership(t: Tree, value: int)
    requires IsAVL(t)
    ensures value in Keys(Insert(t, value))
    ensures value !in Keys(Delete(t, value))
    ensures value !in Keys(t) ==> Keys(Delete(Insert(t, value), value)) == Keys(t)
  {
  }
}
