# Unbalanced binary search tree over integer keys

This project is a Dafny model of the C binary search tree in
`data_structures/binary_trees/binary_search_tree.c`, with proofs about it. The
tree stores `int` keys in nodes linked by `left` and `right` pointers. It
ignores a duplicate insertion, deletes a node with two children by moving the
largest key of its left subtree (the in-order predecessor) up into it, and
answers `find` with 1 or 0.

The model has two layers:

- `bst.dfy` (module `Bst`) is the tree as a value. The datatype
  `Tree = Leaf | Node(left, key, right)` has `Leaf` standing for the null
  pointer. Each C routine becomes a function that follows its branches one by
  one: `Insert`, `GetMax`, `Delete`, `Find`, `Height`, and `InOrder` (the keys
  `inOrder` prints, as a sequence). On top of that come:
  - the search-tree invariant `Ordered`;
  - lemmas for the properties the code relies on or promises;
  - `Run`, which applies the menu's insertions and deletions one after
    another, and `KeysAfter`, which does the same to a plain set of keys.
- `bst_nodes.dfy` (module `BstNodes`) is the same code over heap nodes updated
  in place. `class TreeNode` has the C fields `data`, `left` and `right`, plus
  ghost `Repr` (the nodes of the subtree) and ghost `Model` (the `Bst.Tree`
  the subtree stands for).
  - `Insert` and `Delete` overwrite the child link they came down through and
    return the subtree's new root. In the two-children case `Delete`
    overwrites `data`.
  - `Insert`, `Delete`, `GetMax`, `Find`, `Height` and `InOrder` are each
    proved to agree with the function of the same name in `Bst`: the two
    methods change `Model` exactly as that function changes the value, and
    the read-only functions return what it returns. So every property proved
    in `Bst` also holds for the linked structure.
  - `Purge` returns the nodes in the order the C code releases them.

Two details of the C code that the model keeps:

- `find` returns the `int` 1 or 0, not a boolean.
- `purge` releases the nodes but does not clear the caller's root pointer.
  The program calls it only once, just before it exits.

## Model

| member | source | states |
|---|---|---|
| Bst.InOrder | data_structures/binary_trees/binary_search_tree.c:189-197 | the listing has one entry per node, and a key occurs in it exactly when it is in the tree |
| Bst.OrderedIffInOrderAscending | data_structures/binary_trees/binary_search_tree.c:189-197 | a tree satisfies the search-tree invariant if and only if its in-order listing is strictly ascending, so `inOrder` lists the keys in increasing order |
| Bst.OrderedSizeIsKeyCount | data_structures/binary_trees/binary_search_tree.c:48-56 | an ordered tree holds no key twice: its node count equals the number of distinct keys |
| Bst.Insert | data_structures/binary_trees/binary_search_tree.c:42-57 | the result is never empty, its key set is the old one plus the new key, it has at most one node more, and insertion keeps the tree ordered |
| Bst.InsertPresentIsIdentity | data_structures/binary_trees/binary_search_tree.c:48-56 | inserting a key that an ordered tree already holds returns the tree unchanged |
| Bst.InsertIdempotent | data_structures/binary_trees/binary_search_tree.c:42-57 | inserting the same key twice gives the same tree as inserting it once, on any tree |
| Bst.GetMax | data_structures/binary_trees/binary_search_tree.c:63-70 | on a non-empty tree it returns a node with no right child, whose key is in the tree and, when the tree is ordered, is at least every key in it |
| Bst.Delete | data_structures/binary_trees/binary_search_tree.c:78-121 | the result has no key the tree lacked and no more nodes, deleting an absent key returns the tree unchanged, and on an ordered tree the result is ordered with key set exactly the old one minus the key |
| Bst.DeleteTwoChildren | data_structures/binary_trees/binary_search_tree.c:113-118 | deleting the key of an ordered node with two children keeps the node and its right subtree. The node takes the largest key of the left subtree, which is smaller than the deleted key, and that key leaves the left subtree |
| Bst.DeleteMaxInOrder | data_structures/binary_trees/binary_search_tree.c:113-118 | deleting the largest key of an ordered non-empty tree takes exactly the last entry off its in-order listing |
| Bst.DeleteInOrder | data_structures/binary_trees/binary_search_tree.c:78-121 | on an ordered tree, the listing after a deletion is the old listing with that key taken out and every other key kept in order |
| Bst.Find | data_structures/binary_trees/binary_search_tree.c:130-152 | the answer is 0 or 1, and 1 only for a key that is in the tree. On an ordered tree it is 1 exactly when the key is present. The final `else` is proved unreachable |
| Bst.Height | data_structures/binary_trees/binary_search_tree.c:158-170 | the height is 0 exactly for the empty tree, so it is at least 1 otherwise, and never more than the number of nodes |
| Bst.HeightIsLongestPath | data_structures/binary_trees/binary_search_tree.c:158-170 | every root-down path visits fewer than `Height` edges, and a non-empty tree has a path of exactly `Height - 1` edges: the height counts the nodes on the deepest path |
| Bst.RunRefinesKeySet | data_structures/binary_trees/binary_search_tree.c:247-266 | any sequence of menu insertions and deletions on an ordered tree keeps it ordered and has the same effect on its keys as the same operations on a set |
| Bst.RunFromEmpty | data_structures/binary_trees/binary_search_tree.c:247-273 | starting from the empty tree, the listing is always strictly ascending, and `find` answers 1 exactly for the keys inserted and not deleted since |
| Bst.RunHeight | data_structures/binary_trees/binary_search_tree.c:247-277 | after n operations the tree has at most n more nodes, and its height is at most its old size plus n |
| Bst.ExampleBuild | data_structures/binary_trees/binary_search_tree.c:42-57 | inserting 5, 3, 8, 1, 4 into the empty tree builds root 5 with left child 3 (children 1 and 4) and right child 8 |
| Bst.ExampleListing | data_structures/binary_trees/binary_search_tree.c:158-197 | that tree lists as 1, 3, 4, 5, 8 and has height 3 |
| Bst.ExampleFind | data_structures/binary_trees/binary_search_tree.c:130-152 | on that tree `find` answers 1 for 4 and 0 for 9 |
| Bst.ExampleDeleteRoot | data_structures/binary_trees/binary_search_tree.c:113-118 | deleting 5 from that tree puts 4 at the root and removes the node that held 4 |
| Bst.ExampleDeleteLeaf | data_structures/binary_trees/binary_search_tree.c:94-98 | deleting the leaf 1 from that tree only unlinks that leaf |
| BstNodes.TreeNode.constructor | data_structures/binary_trees/binary_search_tree.c:28-35 | `newNode` gives a fresh valid node holding the key with both links null, standing for a one-node tree |
| BstNodes.TreeNode.SetLeft | data_structures/binary_trees/binary_search_tree.c:54 | storing a valid subtree disjoint from the right one in `left` leaves a valid node whose nodes and value are those of the new left part, the key and the right part |
| BstNodes.TreeNode.SetRight | data_structures/binary_trees/binary_search_tree.c:50 | the same for the assignment to `right` |
| BstNodes.Insert | data_structures/binary_trees/binary_search_tree.c:42-57 | after the in-place insertion the returned node is valid and stands for `Bst.Insert` of the old tree. It is the old root when there was one, and every node it did not already own is new |
| BstNodes.GetMax | data_structures/binary_trees/binary_search_tree.c:63-70 | the rightmost node belongs to the subtree, has no right child and stands for `Bst.GetMax` of the subtree's value |
| BstNodes.Delete | data_structures/binary_trees/binary_search_tree.c:78-121 | after the in-place deletion the returned pointer (null for an empty result) stands for `Bst.Delete` of the old tree, and uses only nodes of the old tree. It is the old root whenever the key differs from the root's or the root has two children |
| BstNodes.DeleteAtTwoChildren | data_structures/binary_trees/binary_search_tree.c:113-118 | overwriting the node's key with that of the left subtree's rightmost node, then deleting that key from the left subtree, leaves the node valid and standing for `Bst.Delete` of the old value at the old key |
| BstNodes.Find | data_structures/binary_trees/binary_search_tree.c:130-152 | the descent over the links gives `Bst.Find` of the subtree's value |
| BstNodes.Height | data_structures/binary_trees/binary_search_tree.c:158-170 | the recursion over the links gives `Bst.Height` of the subtree's value |
| BstNodes.InOrder | data_structures/binary_trees/binary_search_tree.c:189-197 | the keys visited over the links are `Bst.InOrder` of the subtree's value |
| BstNodes.Purge | data_structures/binary_trees/binary_search_tree.c:175-183 | it releases as many nodes as the tree has, including the root, all from the tree and none twice, and each node only after its children |

## Left out

- The menu loop in `main` (lines 234-292) reads from standard input and prints. The model keeps only the operations it triggers on the tree: a sequence of `Bst.Op` values forms the input of `Bst.Run`. Its guard that skips `delete` on an empty tree changes nothing in the tree, because `Bst.Delete(Leaf, x)` is `Leaf`.
- `printTree` and `printTreeHelper` (lines 199-231) only draw the tree on the terminal.
- The `printf` in `inOrder` is left out; the printed keys become the returned sequence.
- `malloc` failure: `newNode` does not check for it, and the constructor always succeeds.
- The nodes that `free` releases are not reclaimed. `BstNodes.Delete` drops them from the result's `Repr`, and `BstNodes.Purge` returns them in release order.
- BstNodes.Delete: states that the result uses no node outside the old tree, but does not say which node was released.
- BstNodes.Purge: does not model memory becoming invalid after release. It also leaves the nodes' fields as they were, just as the C code does not touch them before `free`.
- Keys are unbounded integers. Only comparisons are applied to them, so the C `int` range does not change any result. Heights are likewise unbounded; `Bst.Height` is proved to be at most the node count, and a height near the C `int` limit would need a recursion that deep, which the next line leaves out.
- Recursion depth and stack overflow on a degenerate tree are not modelled.
