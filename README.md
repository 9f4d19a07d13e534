# Binary search tree with parent links, modelled in Dafny

This project models `BinarySearchTree` and `TreeNode` from `src/bst/tree.py`.
The container is an unbalanced binary search tree used as an ordered key-value map.
Every node carries a key, a value, a left child, a right child and a back-link to its parent.

The model has three layers:

- `TreeShape` (`shape.dfy`) is the abstract meaning of a tree.
  - `Tree` is an inductive tree whose nodes carry an identity, a key and a value.
  - `Map` is the key-to-value map a tree stands for. `BST` is the search-tree ordering and `Distinct` says no node occurs twice.
  - `SubAt(t, k)` is the subtree where the search for `k` stops. `ReplaceAt(t, k, s)` puts `s` in its place, and `ParentAt` is the last node the search visits before it.
  - Insert-or-update is `Put`. Deletion is `Remove`, which replaces the deleted node by `DeleteRoot` of its subtree: its only child, or its in-order successor spliced out of the right subtree.
  - `Height` and `Balanced` are the height and the AVL criterion.
- `TreeNodes` (`nodes.dfy`) is the node objects.
  - Each node object is a `TreeNode` record in an arena `map<nat, TreeNode>`. Links are node identities.
  - `Linked`/`Represents` say that an arena mirrors a shape, parent links included.
  - The arena-level effect of `_transplant` and `_delete_node` is written out as `Transplanted`, `SuccessorMoved` and `Deleted`, and proved to represent `Remove`.
  - `_height` and `_is_balanced` are the recursive functions `HeightOf` and `BalanceOf` over the arena.
- `BinarySearchTrees` (`tree.dfy`) is the mutable tree.
  - The class `BinarySearchTree` has the fields `root`, `nodes`, `size` and `nextId`, plus the ghost `shape` the arena represents.
  - Its methods follow the Python methods step by step: the walks are loops, and the link updates are in-place updates of `root` and `nodes`.
  - Each method is proved against `Contents()` (`Map(shape)`) and the class invariant `Valid()`. `Valid()` says the arena represents an ordered, unshared shape, every identity in use is below `nextId`, and `size` counts the nodes.
- `Scenario` (`scenario.dfy`) works the walk-through of the demo script `examples/demo.py` on concrete keys, with integer values in place of its strings: insert 5, 2, 8, 1, 3, search for 3 and 7, delete 2, then delete 5 from the tree that is left. It adds the delete of an absent key 99, which the script does not make.

## Model

| member | source | states |
|---|---|---|
| BinarySearchTrees.BinarySearchTree.constructor | src/bst/tree.py:24-26 | a new tree is valid, empty and has size 0 |
| BinarySearchTrees.BinarySearchTree.FindNode | src/bst/tree.py:74-80 | the loop returns the node holding `key` exactly when `key` is bound, with that binding's value; otherwise it returns None |
| BinarySearchTrees.BinarySearchTree.Search | src/bst/tree.py:52-54 | returns `Some` of the bound value or `None` when the key is absent; no state changes |
| BinarySearchTrees.BinarySearchTree.Plant | src/bst/tree.py:29-32 | on an empty tree the new node with no links becomes the root, the size becomes 1 and the map gains exactly that binding |
| BinarySearchTrees.BinarySearchTree.Overwrite | src/bst/tree.py:36-38 | overwriting the value of the node holding the key changes only that record's value; size and key set are unchanged |
| BinarySearchTrees.BinarySearchTree.HangLeaf | src/bst/tree.py:39-49 | a new leaf whose parent is the last visited node fills that node's empty slot on the key's side; one node more, one binding more, invariant kept |
| BinarySearchTrees.BinarySearchTree.WalkDown | src/bst/tree.py:34-50 | the descent stops at the node holding the key iff the key is bound; otherwise it stops at the node whose empty child slot is where the key belongs |
| BinarySearchTrees.BinarySearchTree.Insert | src/bst/tree.py:28-50 | afterwards the map is the old map with `key := value`. Size grows by one iff the key was absent. A present key overwrites only its node's value. An absent key gets a new leaf whose parent is the last visited node. Order and links are kept. |
| BinarySearchTrees.BinarySearchTree.Transplant | src/bst/tree.py:82-90 | root link or the parent's slot holding `u` now holds `v`, and `v`'s parent becomes `u`'s parent (the `Transplanted` arena) |
| BinarySearchTrees.BinarySearchTree.MoveSuccessor | src/bst/tree.py:98-107 | the two-children steps: splice out the successor unless it is the right child, then give it `z`'s right subtree, `z`'s place and `z`'s left subtree |
| BinarySearchTrees.BinarySearchTree.Minimum | src/bst/tree.py:109-112 | following left links returns the top of `Min` of the subtree: a node with no left child whose key is the smallest key of the subtree |
| BinarySearchTrees.BinarySearchTree.DeleteNode | src/bst/tree.py:92-107 | unlinking node `z` leaves an arena that represents the shape with `z`'s key removed; links and order are kept and the other bindings are unchanged |
| BinarySearchTrees.BinarySearchTree.Delete | src/bst/tree.py:56-63 | returns true iff the key was bound. The map loses exactly that key and size drops by one. An absent key returns false with root, nodes and shape unchanged. |
| BinarySearchTrees.BinarySearchTree.Len | src/bst/tree.py:71-72 | the size counter equals the number of bindings |
| BinarySearchTrees.BinarySearchTree.Height | src/bst/tree.py:65-66 | the height is that of the shape; 0 iff the tree is empty, and never above the number of bindings |
| BinarySearchTrees.BinarySearchTree.IsBalanced | src/bst/tree.py:68-69 | true iff at every node the heights of the two subtrees differ by at most one |
| BinarySearchTrees.BinarySearchTree.LinksAgree | src/bst/tree.py:10-16 | in a valid tree every child names its parent and every parent holds its child in one of its slots |
| TreeNodes.LinkedConsistent | src/bst/tree.py:10-16 | an arena holding exactly the records of a linked shape has agreeing parent and child links |
| TreeNodes.HeightOf | src/bst/tree.py:114-117 | the recursive height over the records equals the shape's height |
| TreeNodes.BalanceOf | src/bst/tree.py:119-131 | the single pass returns (balanced iff every node's subtree heights differ by at most one, height) |
| TreeNodes.TransplantLift | src/bst/tree.py:82-90 | transplanting a node's only child (or nothing) into its place links the shape with that subtree replaced by the child |
| TreeNodes.DeleteCorrect | src/bst/tree.py:92-107 | the arena after `_delete_node` with the minimum of the right subtree as successor represents `Remove` of the node's key |
| TreeNodes.SuccessorChild | src/bst/tree.py:98-107 | when the successor is the right child, it keeps its right subtree and takes the node's place and left subtree |
| TreeNodes.SuccessorDeep | src/bst/tree.py:98-107 | when the successor lies deeper, it is first replaced by its right child, then takes both subtrees and the node's place |
| TreeNodes.UpdateRecord | src/bst/tree.py:36-38 | overwriting the value in the record of a node represents updating that key's binding |
| TreeNodes.GraftRecord | src/bst/tree.py:39-49 | a new leaf record hung in the slot where the search ends represents inserting the absent key |
| TreeNodes.PlantRecord | src/bst/tree.py:29-32 | a single record planted in an empty arena represents the one-node tree |
| TreeShape.Min | src/bst/tree.py:109-112 | defined by following left children from the top; its result is a node with no left child |
| TreeShape.Put | src/bst/tree.py:28-50 | defined as: if the search for the key stops at a node, that node with the new value; otherwise a new leaf in the empty slot where the search stopped (its meaning is proved in PutCorrect) |
| TreeShape.Remove | src/bst/tree.py:56-63 | defined as: if the search for the key stops at a node, that node's subtree replaced by DeleteRoot of it; otherwise the tree unchanged (its meaning is proved in RemoveCorrect) |
| TreeShape.DeleteRoot | src/bst/tree.py:92-107 | defined as: the right subtree when there is no left child, the left subtree when there is no right child, otherwise the successor `Min` of the right subtree on top of the left subtree and of the right subtree with the successor replaced by its own right child (proved in DeleteRootFacts) |
| TreeNodes.Transplanted | src/bst/tree.py:82-90 | the arena after `_transplant(u, v)`: the root becomes `v` when `u` has no parent, otherwise the parent's slot that held `u` holds `v`; `v`'s parent becomes `u`'s parent; the set of records is unchanged |
| TreeNodes.SuccessorMoved | src/bst/tree.py:98-107 | the arena after the two-children branch: a successor that is not `z`'s right child is first transplanted away by its right child and takes `z`'s right subtree; then it is transplanted into `z`'s place and takes `z`'s left subtree; the set of records is unchanged |
| TreeNodes.Deleted | src/bst/tree.py:92-107 | the arena after `_delete_node(z)`: transplant the right child when there is no left child, the left child when there is no right child, otherwise SuccessorMoved; the records are the old ones minus `z` |
| TreeShape.PutCorrect | src/bst/tree.py:28-50 | insert-or-update keeps order and distinct nodes, binds the key to the value and adds a new identity only for an absent key |
| TreeShape.RemoveCorrect | src/bst/tree.py:56-63 | deletion by key keeps order and distinct nodes, removes exactly that key's binding, and drops only the deleted node's identity |
| TreeShape.DeleteRootFacts | src/bst/tree.py:92-107 | the subtree replacing a deleted node keeps order and holds the node's keys, identities and bindings minus its own |
| TreeShape.SuccessorSplice | src/bst/tree.py:98-103 | splicing the minimum out of a right subtree removes just its key and identity, and every remaining key is greater |
| TreeShape.SuccessorIsNext | src/bst/tree.py:98 | the minimum of the right subtree of the node holding `k` is the in-order successor of `k` in the whole tree: it is a key of the tree, larger than `k`, and no key of the tree lies strictly between the two |
| TreeShape.MinFacts | src/bst/tree.py:109-112 | the minimum has no left child, is in the subtree, has the smallest key, and is where a search for its key stops |
| TreeShape.SubAtFacts | src/bst/tree.py:74-80 | the search stops at a node iff the key is in the ordered tree, and that node holds the key and its bound value |
| TreeShape.HeightBounds | src/bst/tree.py:114-117 | height is 0 iff the tree is empty; otherwise between 1 and the number of nodes |
| TreeShape.BalancedNode | src/bst/tree.py:119-131 | balanced at every node iff both subtrees are balanced and their heights differ by at most one |
| TreeShape.KeysCount | src/bst/tree.py:71-72 | an ordered tree binds as many keys as it has nodes |
| Scenario.SampleBuilt | examples/demo.py:8-9 | inserting 5, 2, 8, 1, 3 hangs each new key below the last node its search visits |
| Scenario.SampleQueries | examples/demo.py:10 | that tree has 5 nodes and height 3 |
| Scenario.SampleBalanced | examples/demo.py:10 | that tree is balanced |
| Scenario.SampleSearch | examples/demo.py:13-14 | searching that tree finds 3 with its value and does not find 7 |
| Scenario.DeleteTwo | examples/demo.py:17-18 | deleting 2 moves its successor 3 into its place; 3 keeps its value and 4 keys remain |
| Scenario.DeleteRoot5 | examples/demo.py:17-19 | then deleting the root 5 moves 8, the minimum of its right subtree, into its place; 3 keys remain, height 3, no longer balanced |
| Scenario.DeleteAbsent | src/bst/tree.py:56-60 | deleting the absent key 99 leaves the tree unchanged |

## Left out

- Keys are `int` and values are any type `V`. The source's generic keys need only `<` and `==`, and on `int` those are Dafny's.
- The node comparisons `u == u.parent.left` (src/bst/tree.py:85) and `successor.parent != node` (src/bst/tree.py:99) use the dataclass's structural `__eq__`. The model compares node identities instead. Keys in a tree are distinct, so two different nodes always differ in their key and both comparisons give the same answer. Comparing a node with `None` is false in both.
- Truthiness (`while current`, `if v`, `while node.left`) is modelled as "is not None". `TreeNode` defines neither `__bool__` nor `__len__`, so every node is truthy.
- Node objects are records in a map keyed by identities, and `nextId` hands out fresh identities in place of object allocation.
- Deleted node record: the unlinked node `z` is dropped from the map. In Python it simply becomes unreachable, still holding its stale links.
- BinarySearchTrees.BinarySearchTree.Transplant and MoveSuccessor: they update a record only when the link names a record present in the map. In a valid tree every link does, so the guards never skip an update. They keep the arena functions total on any input.
- BinarySearchTrees.BinarySearchTree.Search: returns `Some(v)` for a bound key and `None` for an absent one. Python's `search` (src/bst/tree.py:54) returns `Optional[V]`, so a key bound to the value `None` gives the same answer as an absent key; the model keeps the two apart and does not capture that collision.
- BinarySearchTrees.BinarySearchTree.Delete: decrements `size` before unlinking the node rather than after (lines 61-62). `_delete_node` does not read the counter, so the final state is the same.
- Insert: the one `while True` loop of `insert` (lines 34-50) is modelled as WalkDown, which stops at the same node, followed by Overwrite or HangLeaf, which make the one update the loop body makes at that node.
- `_height` and `_is_balanced` take a ghost shape argument as their termination measure. Python's recursion-depth limit for very deep trees is not modelled.
- `TreeNode.__repr__` (lines 18-19) and the console output of the demo script (`examples/demo.py`) are not part of this model; its sequence of calls is worked in `Scenario`.
- Performance: the linear worst case, and the single-pass claim for `_is_balanced` beyond its recursive form, are not modelled.
