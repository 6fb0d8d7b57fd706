/**
  The tree object `ArvoreBinaria` of rotina.py: a single root reference and the
  public operations that start the recursive helpers at that root and store
  the subtree they return back into it.
 */
module BinaryTrees {
  import opened Trees
  import opened SearchTree
  import opened Counting

  /** The tree object; `Empty` as root is the empty tree. */
  datatype BinaryTree = BinaryTree(root: Tree)

  /** The invariant every public operation keeps. */
  ghost predicate Valid(b: BinaryTree) {
    IsBST(b.root)
  }

  /** The keys the tree object holds. */
  function Contents(b: BinaryTree): set<int> {
    Keys(b.root)
  }

  /** `__init__`: a tree with no root, holding nothing and trivially ordered. */
  function New(): (b: BinaryTree)
    ensures Valid(b) && Contents(b) == {}
  {
    BinaryTree(Empty)
  }

  /**
    `inserir`: an empty tree gets the value as its root; otherwise the
    descent below the root places it. The key set grows by exactly `v`, and a
    value already present leaves the tree as it was.
   */
  function Insert(b: BinaryTree, v: int): (r: BinaryTree)
    ensures Contents(r) == Contents(b) + {v}
    ensures Valid(b) ==> Valid(r)
    ensures Valid(b) && v in Contents(b) ==> r == b
  {
    if b.root.Empty? then BinaryTree(Leaf(v)) else BinaryTree(InsertInto(b.root, v))
  }

  /** `buscar`: on a valid tree, true exactly for the keys it holds. */
  function Contains(b: BinaryTree, v: int): (found: bool)
    ensures Valid(b) ==> (found <==> v in Contents(b))
    ensures b.root.Empty? ==> !found
  {
    Search(b.root, v)
  }

  /**
    `excluir`: the root becomes whatever the recursive deletion returns.
    An absent key leaves the tree unchanged; on a valid tree exactly `v` is
    removed and the ordering is kept.
   */
  function Delete(b: BinaryTree, v: int): (r: BinaryTree)
    ensures v !in Contents(b) ==> r == b
    ensures Valid(b) ==> Valid(r) && Contents(r) == Contents(b) - {v}
  {
    BinaryTree(DeleteFrom(b.root, v))
  }

  /** `contar_nos`: on a valid tree, the number of distinct keys it holds. */
  function CountNodes(b: BinaryTree): (n: nat)
    ensures Valid(b) ==> n == |Contents(b)|
    ensures n == 0 <==> b.root.Empty?
  {
    CountNodesIn(b.root)
  }

  /**
    `contar_nos_nao_folhas`: every node except the leaves; hence zero for an
    empty tree and for a lone root, and at most one less than the node count
    for any non-empty tree.
   */
  function CountNonLeaves(b: BinaryTree): (n: nat)
    ensures n == CountNodes(b) - CountLeavesIn(b.root)
    ensures b.root.Empty? || IsLeaf(b.root) ==> n == 0
    ensures b.root.Node? ==> n <= CountNodes(b) - 1
  {
    LeavesAndNonLeaves(b.root);
    CountNonLeavesIn(b.root)
  }

  /** Inserting changes the node count by one for a new value and by nothing for a duplicate. */
  lemma InsertCount(b: BinaryTree, v: int)
    requires Valid(b)
    ensures v in Contents(b) ==> CountNodes(Insert(b, v)) == CountNodes(b)
    ensures v !in Contents(b) ==> CountNodes(Insert(b, v)) == CountNodes(b) + 1
  {
  }

  /** Deleting lowers the node count by one for a present value and by nothing for an absent one. */
  lemma DeleteCount(b: BinaryTree, v: int)
    requires Valid(b)
    ensures v in Contents(b) ==> CountNodes(Delete(b, v)) == CountNodes(b) - 1
    ensures v !in Contents(b) ==> CountNodes(Delete(b, v)) == CountNodes(b)
  {
  }

  /** A value just inserted is found; a value just deleted is not; other values are unaffected. */
  lemma SearchAfterUpdate(b: BinaryTree, v: int, w: int)
    requires Valid(b)
    ensures Contains(Insert(b, v), v)
    ensures !Contains(Delete(b, v), v)
    ensures w != v ==> Contains(Insert(b, v), w) == Contains(b, w)
    ensures w != v ==> Contains(Delete(b, v), w) == Contains(b, w)
  {
  }

  /** A client inserting the values of `vs` one after another, first to last. */
  function InsertAll(b: BinaryTree, vs: seq<int>): BinaryTree
    decreases |vs|
  {
    if vs == [] then b else InsertAll(Insert(b, vs[0]), vs[1..])
  }

  /**
    Any sequence of insertions into a valid tree (in particular into a new
    one) leaves a valid tree holding the old keys plus the inserted values.
   */
  lemma {:induction false} InsertAllValid(b: BinaryTree, vs: seq<int>)
    requires Valid(b)
    ensures Valid(InsertAll(b, vs))
    ensures Contents(InsertAll(b, vs)) == Contents(b) + set v | v in vs
    decreases |vs|
  {
    if vs != [] {
      InsertAllValid(Insert(b, vs[0]), vs[1..]);
      assert (set v | v in vs) == {vs[0]} + set v | v in vs[1..];
    }
  }

  /** The tree an example builds from 50, 30, 70, 20, 40, 60, 80. */
  function ExampleTree(): BinaryTree {
    BinaryTree(Node(Node(Leaf(20), 30, Leaf(40)), 50, Node(Leaf(60), 70, Leaf(80))))
  }

  /** Example, building: the seven insertions give the balanced tree rooted at 50. */
  lemma ExampleBuild()
    ensures InsertAll(New(), [50, 30, 70, 20, 40, 60, 80]) == ExampleTree()
  {
  }

  /** Example, counting: seven nodes, of which 50, 30 and 70 are not leaves. */
  lemma ExampleCounts()
    ensures CountNodes(ExampleTree()) == 7
    ensures CountNonLeaves(ExampleTree()) == 3
  {
  }

  /**
    Example, deleting: removing the two-child root 50 promotes its
    successor 60 and leaves six nodes; removing the leaf 20 afterwards unlinks
    it from 30 and changes nothing else.
   */
  lemma ExampleDelete()
    ensures Delete(ExampleTree(), 50).root == Node(Node(Leaf(20), 30, Leaf(40)), 60, Node(Empty, 70, Leaf(80)))
    ensures !Contains(Delete(ExampleTree(), 50), 50)
    ensures CountNodes(Delete(ExampleTree(), 50)) == 6
    ensures Delete(Delete(ExampleTree(), 50), 20).root == Node(Node(Empty, 30, Leaf(40)), 60, Node(Empty, 70, Leaf(80)))
  {
  }
}
