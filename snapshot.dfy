/** generateTreeData (AVLTreeVisualizer.jsx): the nested view of the tree
    that the display draws.  Each entry carries a node's key and its balance
    factor; its children are the entries of the left and then the right
    subtree, with absent subtrees dropped. */
module AvlSnapshot {
  import opened AvlTree

  datatype Option<T> = None | Some(value: T)

  /** One entry of the view: the key, the balance factor, and the entries of
      the children that are present, left first. */
  datatype View = View(value: int, balance: int, children: seq<View>)

  /** `[a, b].filter(Boolean)` for one slot: a null entry is dropped. */
  function Present(o: Option<View>): (r: seq<View>)
    ensures o.None? ==> r == []
    ensures o.Some? ==> r == [o.value]
  {
    if o.Some? then [o.value] else []
  }

  /** How many children a node has; the view lists that many child entries. */
  function ChildCount(t: Tree): nat
    requires t.Node?
  {
    (if t.left.Node? then 1 else 0) + (if t.right.Node? then 1 else 0)
  }

  /** generateTreeData(node): null for an empty subtree, otherwise an entry
      for the node whose children are the snapshots of its two subtrees. */
  function Snapshot(t: Tree): (r: Option<View>)
    ensures r.None? <==> t.Nil?
    ensures r.Some? ==> r.value.value == t.value && r.value.balance == BalanceFactor(t)
    ensures r.Some? ==> |r.value.children| == ChildCount(t)
    ensures r.Some? && t.left.Node? ==> r.value.children[0] == Snapshot(t.left).value
    ensures r.Some? && t.right.Node? ==>
      r.value.children[|r.value.children| - 1] == Snapshot(t.right).value
  {
    if t.Nil? then None
    else Some(View(t.value, BalanceFactor(t), Present(Snapshot(t.left)) + Present(Snapshot(t.right))))
  }

  /** The (key, balance factor, child count) triples of a view, entry first,
      then its children's in order.  With the child counts, this list fixes
      the nesting of the view (EntriesDetermineViews). */
  function Entries(v: View): seq<(int, int, nat)>
    decreases v
  {
    [(v.value, v.balance, |v.children|)] + EntriesOf(v.children)
  }

  function EntriesOf(vs: seq<View>): seq<(int, int, nat)>
    decreases vs
  {
    if vs == [] then [] else Entries(vs[0]) + EntriesOf(vs[1..])
  }

  /** Reference definition on the tree side: the key, balance factor and
      number of children of every node, in pre-order (node, left subtree,
      right subtree). */
  function PreOrder(t: Tree): seq<(int, int, nat)> {
    if t.Nil? then []
    else [(t.value, BalanceFactor(t), ChildCount(t))] + PreOrder(t.left) + PreOrder(t.right)
  }

  lemma {:induction false} EntriesOfConcat(a: seq<View>, b: seq<View>)
    ensures EntriesOf(a + b) == EntriesOf(a) + EntriesOf(b)
  {
    if a == [] {
      assert a + b == b;
    } else {
      assert (a + b)[0] == a[0] && (a + b)[1..] == a[1..] + b;
      EntriesOfConcat(a[1..], b);
      calc {
        EntriesOf(a + b);
        Entries(a[0]) + EntriesOf(a[1..] + b);
        Entries(a[0]) + (EntriesOf(a[1..]) + EntriesOf(b));
        EntriesOf(a) + EntriesOf(b);
      }
    }
  }

  /** The view lists every node of the tree exactly once, with its key,
      balance factor and number of children, in pre-order with the left subtree before the right;
      an empty tree gives no entry at all. */
  lemma {:induction false} SnapshotListsEveryNode(t: Tree)
    ensures EntriesOf(Present(Snapshot(t))) == PreOrder(t)
  {
    if t.Node? {
      SnapshotEntriesOfNode(t);
      SnapshotListsEveryNode(t.left);
      SnapshotListsEveryNode(t.right);
    }
  }

  /** One level of SnapshotListsEveryNode: a node's entries are its own triple
      followed by those of its left and then its right subtree's view. */
  lemma SnapshotEntriesOfNode(t: Tree)
    requires t.Node?
    ensures EntriesOf(Present(Snapshot(t))) == [(t.value, BalanceFactor(t), ChildCount(t))] +
      EntriesOf(Present(Snapshot(t.left))) + EntriesOf(Present(Snapshot(t.right)))
  {
    var l := Present(Snapshot(t.left));
    var r := Present(Snapshot(t.right));
    var v := View(t.value, BalanceFactor(t), l + r);
    assert Present(Snapshot(t)) == [v];
    SingleEntry(v);
    EntriesOfConcat(l, r);
    ConcatAssociates([(t.value, BalanceFactor(t), ChildCount(t))], EntriesOf(l), EntriesOf(r));
  }

  lemma ConcatAssociates<T>(a: seq<T>, b: seq<T>, c: seq<T>)
    ensures a + (b + c) == a + b + c
  {
  }

  lemma SingleEntry(v: View)
    ensures EntriesOf([v]) == Entries(v)
  {
    assert [v][1..] == [];
  }

  /** Equally long lists of views whose entry lists agree up to some tails
      are the same views, and the tails agree: the child counts let the
      flattened list be read back into exactly one nesting. */
  lemma {:induction false} EntriesDetermineViews(vs: seq<View>, ws: seq<View>,
                                                  a: seq<(int, int, nat)>, b: seq<(int, int, nat)>)
    requires |vs| == |ws| && EntriesOf(vs) + a == EntriesOf(ws) + b
    ensures vs == ws && a == b
    decreases vs
  {
    if vs != [] {
      var v, w := vs[0], ws[0];
      var restV := EntriesOf(v.children) + (EntriesOf(vs[1..]) + a);
      var restW := EntriesOf(w.children) + (EntriesOf(ws[1..]) + b);
      var hv, hw := (v.value, v.balance, |v.children|), (w.value, w.balance, |w.children|);
      EntriesOfHead(vs, a);
      EntriesOfHead(ws, b);
      assert ([hv] + restV)[0] == hv && ([hv] + restV)[1..] == restV;
      assert ([hw] + restW)[0] == hw && ([hw] + restW)[1..] == restW;
      assert hv == hw && restV == restW;
      EntriesDetermineViews(v.children, w.children, EntriesOf(vs[1..]) + a, EntriesOf(ws[1..]) + b);
      EntriesDetermineViews(vs[1..], ws[1..], a, b);
      assert vs == [v] + vs[1..] && ws == [w] + ws[1..];
    } else {
      assert EntriesOf(vs) + a == a && EntriesOf(ws) + b == b;
    }
  }

  /** The entries of a non-empty list of views, followed by a tail: the first
      view's own triple, its children's entries, then the rest. */
  lemma EntriesOfHead(vs: seq<View>, a: seq<(int, int, nat)>)
    requires vs != []
    ensures EntriesOf(vs) + a == [(vs[0].value, vs[0].balance, |vs[0].children|)] +
      (EntriesOf(vs[0].children) + (EntriesOf(vs[1..]) + a))
  {
    var h := [(vs[0].value, vs[0].balance, |vs[0].children|)];
    var c, r := EntriesOf(vs[0].children), EntriesOf(vs[1..]);
    assert EntriesOf(vs) == h + c + r;
    ConcatAssociates(h + c, r, a);
    ConcatAssociates(h, c, r + a);
  }

  /** The flattened pre-order pins the view down: a view whose entries are
      those of a tree's pre-order is that tree's snapshot, nesting included. */
  lemma SnapshotUnique(t: Tree, v: View)
    requires EntriesOf([v]) == PreOrder(t)
    ensures Snapshot(t) == Some(v)
  {
    SnapshotListsEveryNode(t);
    if t.Nil? {
      SingleEntry(v);
      assert false;
    }
    var s := Present(Snapshot(t));
    assert |s| == 1;
    assert EntriesOf(s) + [] == EntriesOf([v]) + [];
    EntriesDetermineViews(s, [v], [], []);
  }

  /** The pre-order of a tree has one triple per node, and its keys are the
      tree's keys. */
  lemma {:induction false} PreOrderCoversTree(t: Tree)
    ensures |PreOrder(t)| == Size(t)
    ensures forall k :: k in Keys(t) <==> exists e :: e in PreOrder(t) && e.0 == k
  {
    if t.Node? {
      PreOrderCoversTree(t.left);
      PreOrderCoversTree(t.right);
      var e0 := (t.value, BalanceFactor(t), ChildCount(t));
      forall k ensures k in Keys(t) <==> exists e :: e in PreOrder(t) && e.0 == k {
        if k in Keys(t.left) {
          var e :| e in PreOrder(t.left) && e.0 == k;
          assert e in PreOrder(t);
        } else if k in Keys(t.right) {
          var e :| e in PreOrder(t.right) && e.0 == k;
          assert e in PreOrder(t);
        } else if k == t.value {
          assert e0 in PreOrder(t);
        }
      }
    }
  }

  /** The view of an empty tree is null; otherwise it has exactly as many
      entries as the tree has nodes, and carries exactly the tree's keys. */
  lemma SnapshotSize(t: Tree)
    ensures Snapshot(t).None? <==> Size(t) == 0
    ensures |EntriesOf(Present(Snapshot(t)))| == Size(t)
    ensures forall k :: k in Keys(t) <==>
      exists e :: e in EntriesOf(Present(Snapshot(t))) && e.0 == k
  {
    SnapshotListsEveryNode(t);
    PreOrderCoversTree(t);
  }

  /** On an AVL tree every balance factor the view shows is -1, 0 or 1. */
  lemma SnapshotBalancesBounded(t: Tree)
    requires IsAVL(t)
    ensures forall e :: e in EntriesOf(Present(Snapshot(t))) ==> -1 <= e.1 <= 1
  {
    SnapshotListsEveryNode(t);
    PreOrderBalancesBounded(t);
  }

  lemma {:induction false} PreOrderBalancesBounded(t: Tree)
    requires IsAVL(t)
    ensures forall e :: e in PreOrder(t) ==> -1 <= e.1 <= 1
  {
    if t.Node? {
      Unfold(t);
      PreOrderBalancesBounded(t.left);
      PreOrderBalancesBounded(t.right);
    }
  }
}
