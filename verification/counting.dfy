/**
  The two counting traversals of `ArvoreBinaria` (rotina.py): all nodes, and
  nodes that are not leaves.
 */
module Counting {
  import opened Trees

  /** Cardinality of a union of pairwise disjoint parts. */
  lemma DisjointUnionSize(a: set<int>, k: int, b: set<int>)
    requires AllBelow(a, k) && AllAbove(b, k)
    ensures |a + {k} + b| == |a| + 1 + |b|
  {
    assert k !in a;
    forall x | x in a + {k}
      ensures x !in b
    {
      assert x <= k;
    }
    assert (a + {k}) * b == {};
  }

  /**
    `_contar_nos_recursivo`: the number of nodes of `t`. It is zero exactly for
    the empty tree, never below the number of distinct keys, and on a search
    tree (where no key repeats) equal to it.
   */
  function CountNodesIn(t: Tree): (n: nat)
    ensures n == 0 <==> t.Empty?
    ensures |Keys(t)| <= n
    ensures IsBST(t) ==> n == |Keys(t)|
    decreases t
  {
    match t
    case Empty => 0
    case Node(l, k, r) =>
      var n := 1 + CountNodesIn(l) + CountNodesIn(r);
      assert |Keys(t)| <= n by {
        assert |Keys(l) + {k}| <= |Keys(l)| + 1;
      }
      assert IsBST(t) ==> n == |Keys(t)| by {
        if IsBST(t) {
          DisjointUnionSize(Keys(l), k, Keys(r));
        }
      }
      n
  }

  /** A node with no children. */
  predicate IsLeaf(t: Tree) {
    t.Node? && t.left.Empty? && t.right.Empty?
  }

  /**
    Number of leaves, an independent count the non-leaf count is compared
    with; every non-empty tree has at least one leaf.
   */
  function CountLeavesIn(t: Tree): (n: nat)
    ensures t.Node? ==> 1 <= n
    decreases t
  {
    match t
    case Empty => 0
    case Node(l, _, r) =>
      if IsLeaf(t) then 1 else CountLeavesIn(l) + CountLeavesIn(r)
  }

  /**
    `_contar_nos_nao_folhas_recursivo`: the number of nodes with at least one
    child (the source's `esquerda or direita` is "a child is present", since a
    node object is always truthy). It is zero on the empty tree and on a single
    node, and on a non-empty tree at most the node count minus one.
   */
  function CountNonLeavesIn(t: Tree): (n: nat)
    ensures t.Empty? ==> n == 0
    ensures IsLeaf(t) ==> n == 0
    ensures t.Node? ==> n <= CountNodesIn(t) - 1
    decreases t
  {
    match t
    case Empty => 0
    case Node(l, _, r) =>
      var own := if l.Node? || r.Node? then 1 else 0;
      own + CountNonLeavesIn(l) + CountNonLeavesIn(r)
  }

  /** Every node is either a leaf or a non-leaf, and never both. */
  lemma {:induction false} LeavesAndNonLeaves(t: Tree)
    ensures CountNonLeavesIn(t) + CountLeavesIn(t) == CountNodesIn(t)
    decreases t
  {
    match t
    case Empty =>
    case Node(l, _, r) =>
      LeavesAndNonLeaves(l);
      LeavesAndNonLeaves(r);
  }
}
