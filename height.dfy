/** Why the engine's operations stay cheap: a tree whose nodes are all
    balanced has a height logarithmic in its number of nodes. */
module AvlHeight {
  import opened AvlTree

  /** The fewest nodes a balanced tree of height h can have:
      0, 1, 2, 4, 7, 12, ... (one node plus the two sparsest subtrees). */
  function MinNodes(h: nat): nat {
    if h == 0 then 0
    else if h == 1 then 1
    else MinNodes(h - 1) + MinNodes(h - 2) + 1
  }

  function Pow2(n: nat): nat {
    if n == 0 then 1 else 2 * Pow2(n - 1)
  }

  lemma {:induction false} MinNodesMonotone(a: nat, b: nat)
    requires a <= b
    ensures MinNodes(a) <= MinNodes(b)
    decreases b
  {
    if a < b {
      MinNodesMonotone(a, b - 1);
    }
  }

  /** A balanced tree has at least MinNodes(height) nodes. */
  lemma {:induction false} BalancedHasMinNodes(t: Tree)
    requires Balanced(t)
    ensures Size(t) >= MinNodes(Height(t))
  {
    if t.Node? {
      BalancedHasMinNodes(t.left);
      BalancedHasMinNodes(t.right);
      var h := Height(t);
      if h >= 2 {
        if Height(t.left) >= Height(t.right) {
          MinNodesMonotone(h - 2, Height(t.right));
        } else {
          MinNodesMonotone(h - 2, Height(t.left));
        }
      }
    }
  }

  /** MinNodes at least doubles every two levels. */
  lemma {:induction false} MinNodesGrowth(h: nat)
    ensures Pow2((h + 1) / 2) <= MinNodes(h) + 1
  {
    if h >= 2 {
      MinNodesGrowth(h - 2);
      MinNodesMonotone(h - 2, h - 1);
      assert (h + 1) / 2 == (h - 1) / 2 + 1;
    }
  }

  /** The height bound: a balanced tree of height h has at least
      2^ceil(h/2) - 1 nodes, so h <= 2 log2(n + 1). */
  lemma HeightLogarithmic(t: Tree)
    requires Balanced(t)
    ensures Pow2((Height(t) + 1) / 2) <= Size(t) + 1
  {
    BalancedHasMinNodes(t);
    MinNodesGrowth(Height(t));
  }
}
