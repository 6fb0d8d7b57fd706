/**
  The node structure of the binary search tree (class `No` of rotina.py) and the
  two notions every contract of the model is stated in: the set of keys a tree
  holds, and the binary-search-tree ordering invariant.

  A Python node is an object with a value and two optional child references. No
  node is ever shared between two parents, so a node together with everything
  below it is modelled as an immutable value; an absent child (`None`) is `Empty`.
 */
module Trees {

  /** A possibly absent node: `Empty` for `None`, `Node` for a `No` object. */
  datatype Tree = Empty | Node(left: Tree, key: int, right: Tree)

  /** A freshly created node, `No(valor)`: a key and no children. */
  function Leaf(v: int): Tree {
    Node(Empty, v, Empty)
  }

  /** The keys stored anywhere in `t`. */
  function Keys(t: Tree): set<int> {
    match t
    case Empty => {}
    case Node(l, k, r) => Keys(l) + {k} + Keys(r)
  }

  /** Every element of `s` is strictly below `k`. */
  ghost predicate AllBelow(s: set<int>, k: int) {
    forall x :: x in s ==> x < k
  }

  /** Every element of `s` is strictly above `k`. */
  ghost predicate AllAbove(s: set<int>, k: int) {
    forall x :: x in s ==> k < x
  }

  /**
    The ordering invariant the tree keeps: at every node, all keys of the left
    subtree are smaller and all keys of the right subtree are larger than the
    node's own key. In particular no key occurs twice.
   */
  ghost predicate IsBST(t: Tree) {
    match t
    case Empty => true
    case Node(l, k, r) =>
      && IsBST(l)
      && IsBST(r)
      && AllBelow(Keys(l), k)
      && AllAbove(Keys(r), k)
  }
}
