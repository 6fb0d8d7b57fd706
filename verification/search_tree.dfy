/**
  The helpers of `ArvoreBinaria` (rotina.py) that walk a subtree: insertion
  below an existing node, search, the minimum finder and the three-case
  deletion. Insertion and deletion change the node they are given in place;
  here they return the updated subtree instead, which is what the caller
  stores back into its child slot. Search and the minimum finder only read
  the tree: search answers a boolean, and the minimum finder is a loop that
  returns the leftmost node.
 */
module SearchTree {
  import opened Trees

  /**
    `_inserir_recursivo`: descend from an existing node, going left for a
    smaller value and right for a larger one, and hang a new leaf in the first
    free slot on that path. An equal value stops the descent and changes nothing.
   */
  function InsertInto(t: Tree, v: int): (r: Tree)
    requires t.Node?
    ensures r.Node? && r.key == t.key
    ensures Keys(r) == Keys(t) + {v}
    ensures IsBST(t) ==> IsBST(r)
    ensures IsBST(t) && v in Keys(t) ==> r == t
    decreases t
  {
    if v < t.key then
      if t.left.Empty? then t.(left := Leaf(v)) else t.(left := InsertInto(t.left, v))
    else if v > t.key then
      if t.right.Empty? then t.(right := Leaf(v)) else t.(right := InsertInto(t.right, v))
    else
      t
  }

  /**
    `_buscar_recursivo`: compare with the node's key and follow one child.
    It only ever answers true for a key that is present; on a search tree it
    answers true for exactly the keys present.
   */
  function Search(t: Tree, v: int): (found: bool)
    ensures found ==> v in Keys(t)
    ensures IsBST(t) ==> (found <==> v in Keys(t))
    ensures t.Empty? ==> !found
  {
    match t
    case Empty => false
    case Node(l, k, r) =>
      if v == k then true
      else if v < k then Search(l, v)
      else Search(r, v)
  }

  /**
    The node `_encontrar_minimo` stops at, defined by recursion on the left
    spine: it has no left child, its key is in the tree, and on a search tree
    that key is the smallest one.
   */
  function Leftmost(t: Tree): (m: Tree)
    requires t.Node?
    ensures m.Node? && m.left.Empty?
    ensures m.key in Keys(t)
    ensures IsBST(t) ==> forall x :: x in Keys(t) ==> m.key <= x
    decreases t
  {
    if t.left.Empty? then t else Leftmost(t.left)
  }

  /** `_encontrar_minimo`: the loop that follows left children until none is left. */
  method FindMinimum(t: Tree) returns (m: Tree)
    requires t.Node?
    ensures m == Leftmost(t)
    ensures m.Node? && m.left.Empty? && m.key in Keys(t)
    ensures m.Node? && IsBST(t) ==> forall x :: x in Keys(t) ==> m.key <= x
  {
    m := t;
    while m.left.Node?
      invariant m.Node?
      invariant Leftmost(m) == Leftmost(t)
      decreases m
    {
      m := m.left;
    }
  }

  /**
    `_excluir_recursivo`: locate `v` by the search descent and remove its node.
    A node without children disappears, a node with one child is replaced by
    that child, and a node with two children takes the key of the leftmost node
    of its right subtree, which is then deleted from that subtree.

    On any tree the result holds no new key and an absent key changes nothing;
    on a search tree the invariant is kept and exactly `v` is removed.
   */
  function DeleteFrom(t: Tree, v: int): (r: Tree)
    ensures Keys(r) <= Keys(t)
    ensures v !in Keys(t) ==> r == t
    ensures IsBST(t) ==> IsBST(r) && Keys(r) == Keys(t) - {v}
    decreases t
  {
    match t
    case Empty => Empty
    case Node(l, k, rt) =>
      if v < k then Node(DeleteFrom(l, v), k, rt)
      else if v > k then Node(l, k, DeleteFrom(rt, v))
      else if l.Empty? && rt.Empty? then Empty
      else if l.Empty? then rt
      else if rt.Empty? then l
      else
        var s := Leftmost(rt).key;
        Node(l, s, DeleteFrom(rt, s))
  }

  /**
    Leftmost node with its right subtree hoisted into its place: what removing
    the minimum of a tree amounts to.
   */
  function WithoutLeftmost(t: Tree): Tree
    requires t.Node?
    decreases t
  {
    if t.left.Empty? then t.right else Node(WithoutLeftmost(t.left), t.key, t.right)
  }

  /**
    The recursive call in the two-child case deletes the minimum of the right
    subtree, and that deletion always ends in the no-child or one-child case:
    it walks down the left spine and unlinks the leftmost node.
   */
  lemma {:induction false} DeleteLeftmostUnlinks(t: Tree)
    requires t.Node? && IsBST(t)
    ensures DeleteFrom(t, Leftmost(t).key) == WithoutLeftmost(t)
    decreases t
  {
    if t.left.Node? {
      DeleteLeftmostUnlinks(t.left);
    }
  }
}
