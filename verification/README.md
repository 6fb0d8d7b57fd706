# Binary search tree of `arvore_binaria`, modelled in Dafny

The repository implements an unbalanced binary search tree
(`ArvoreBinaria`, built from `No` nodes) with insertion that ignores
duplicates, search by comparison, three-case deletion that promotes the
in-order successor, and two counting traversals: all nodes and non-leaf nodes.
This project models that core as values and proves what it promises.

- `tree.dfy` (module `Trees`): the node type `Tree = Empty | Node(left, key, right)`,
  where `Empty` stands for `None`; `Leaf(v)` is a newly created `No(valor)`,
  a key with no children. It also defines the key set `Keys` and the
  ordering invariant `IsBST`.
- `search_tree.dfy` (module `SearchTree`): the helpers `_inserir_recursivo`,
  `_buscar_recursivo`, `_encontrar_minimo` and `_excluir_recursivo`.
  Insertion and deletion change the node they are given in place; here they
  return the updated subtree instead. No node is ever shared in the source, so
  nothing observable is lost. Search and the minimum finder only read the
  tree: search returns a boolean, and the minimum finder is a `while` loop
  that returns the leftmost node.
- `counting.dfy` (module `Counting`): `_contar_nos_recursivo` and
  `_contar_nos_nao_folhas_recursivo`, plus a leaf count used as a reference.
- `binary_tree.dfy` (module `BinaryTrees`): the tree object with its root
  reference and its public operations. It also holds properties that relate
  several operations and an example of seven insertions followed by two
  deletions.

`_inserir_recursivo` is only ever called on an existing node, so
`InsertInto` requires a non-empty tree. The empty root is handled by
`Insert`, as `inserir` does. `_encontrar_minimo` is a loop; `FindMinimum`
keeps that loop and is proved to return the node given by the recursive
definition `Leftmost`, which deletion uses. Both require a non-empty tree:
the Python loop would fail on `None`, and its only caller passes a right
subtree that the two-child case knows is present. The non-leaf test
`esquerda or direita` is "some child is present", because a node object is
always truthy.

## Model

| member | source | states |
|---|---|---|
| SearchTree.InsertInto | rotina.py:64-75 | result is non-empty with the same root key; key set is the old set plus `v`; the search-tree ordering is kept; on an ordered tree a value already present leaves the tree unchanged |
| SearchTree.Search | rotina.py:93-101 | true only for a key present in the tree; on an ordered tree true exactly when the key is present; false on the empty tree |
| SearchTree.Leftmost | rotina.py:206-209 | the node reached by following left children has no left child, its key is in the tree, and on an ordered tree that key is at most every key of the tree |
| SearchTree.FindMinimum | rotina.py:206-209 | the loop stops at the leftmost node, which has no left child and holds the minimum key of an ordered tree |
| SearchTree.DeleteFrom | rotina.py:178-198 | no key is added; deleting an absent key returns the tree unchanged; on an ordered tree the ordering is kept and the key set loses exactly `v` |
| SearchTree.DeleteLeftmostUnlinks | rotina.py:194-197 | deleting the minimum of an ordered tree only walks the left spine and replaces the leftmost node by its right child, so the recursive call of the two-child case ends in the leaf or one-child case |
| Counting.CountNodesIn | rotina.py:118-122 | zero exactly for the empty tree; never below the number of distinct keys; on an ordered tree equal to the number of keys |
| Counting.CountNonLeavesIn | rotina.py:139-146 | zero for the empty tree and for a single node; at most the node count minus one for a non-empty tree |
| Counting.LeavesAndNonLeaves | rotina.py:139-146 | the nodes with a child and the nodes without one together make up all the nodes the node count counts |
| BinaryTrees.New | rotina.py:41-42 | a new tree holds no keys and is ordered |
| BinaryTrees.Insert | rotina.py:51-55 | the key set grows by exactly `v`; validity is kept; inserting a value already present leaves the tree unchanged |
| BinaryTrees.Contains | rotina.py:83-84 | on a valid tree true exactly for held keys; false on the empty tree |
| BinaryTrees.Delete | rotina.py:169-170 | deleting an absent key changes nothing; on a valid tree validity is kept and exactly `v` is removed |
| BinaryTrees.CountNodes | rotina.py:109-110 | on a valid tree equals the number of held keys; zero exactly for the empty tree |
| BinaryTrees.CountNonLeaves | rotina.py:130-131 | exactly the node count minus the number of leaves; zero for an empty tree and a lone root; at most node count minus one otherwise |
| BinaryTrees.InsertCount | rotina.py:51-75 | inserting a new value adds one node; inserting a duplicate leaves the node count unchanged |
| BinaryTrees.DeleteCount | rotina.py:169-198 | deleting a present value removes exactly one node; deleting an absent value leaves the node count unchanged |
| BinaryTrees.SearchAfterUpdate | rotina.py:51-198 | after inserting `v` it is found; after deleting `v` it is not; the answer for every other value is unaffected by either |
| BinaryTrees.InsertAllValid | rotina.py:51-75 | any sequence of insertions keeps the tree valid and adds exactly the inserted values to its key set |
| BinaryTrees.ExampleBuild | rotina.py:51-75 | inserting 50, 30, 70, 20, 40, 60, 80 into a new tree yields the balanced tree rooted at 50 |
| BinaryTrees.ExampleCounts | rotina.py:118-146 | that tree has 7 nodes, 3 of them non-leaves |
| BinaryTrees.ExampleDelete | rotina.py:178-198 | deleting 50 from it promotes 60 to the root and leaves 6 nodes, none holding 50; deleting 20 afterwards only detaches it from 30 |

## Left out

- `desenhar_arvore` and `_adicionar_arestas` (drawing with networkx and matplotlib, with floating-point layout): rendering, not tree logic.
- `localizar`: it prints a message and draws the tree; its only decision is a call to `buscar`, which `BinaryTrees.Contains` models.
- `InterfaceGrafica`: the tkinter front end; it only builds widgets, and the handlers its buttons name are not part of this model.
- Key type: keys are `int` by choice of the model. `ArvoreBinaria` accepts any value Python can compare with `<` and `>`, and nothing in rotina.py fixes the type; with `str` keys, for one, Python would order them lexicographically, which this model does not cover.
- Object identity and in-place mutation of `No` fields: nodes are immutable values and each operation returns the new tree. No node is shared, so no aliasing is observable.
- Recursion depth: Python's recursion limit on very deep (degenerate) trees is not modelled; `int` keys are unbounded, as Python's integers are.
- Search and counting on trees that break the ordering: the contracts of `SearchTree.Search`, `SearchTree.DeleteFrom` and `Counting.CountNodesIn` give exact key-set answers only for ordered trees. Every public operation keeps the tree ordered, so only such trees arise.
