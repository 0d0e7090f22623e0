# Unbalanced binary search tree

A Dafny model of the `binary_tree` crate: an unbalanced binary search tree of
ordered items (`Tree`, `TreeNode`) with insertion, membership and two
stack-based iterators.

- `nodes.dfy` (module `Nodes`): a node or an empty child slot is a value of
  the datatype `Subtree` (`Leaf` stands for `None`). `Add` is
  `TreeNode::add` together with the "empty slot gets a new node" step that
  `Tree::add` and both branches of `TreeNode::add` share; `Contains` is
  `TreeNode::contains` with an empty slot answering `false`; its contract
  says that lookup answers exactly the membership question on a search tree.
  Lemmas prove that insertion keeps the search-tree invariant (left `<` item
  `<=` right), adds exactly the new item and only attaches one new leaf, and
  that lookup finds an item right after it is added and keeps finding it
  after later insertions.
- `traversals.dfy` (module `Traversals`): the in-order and pre-order
  sequences of a subtree, the facts that both list exactly the stored items
  and that the in-order sequence of a search tree is sorted, and a reference
  list insertion `InsertSorted` with the lemma that, on a search tree, `Add`
  inserts into the in-order sequence exactly as `InsertSorted` does.
- `binary_tree.dfy` (module `BinaryTree`): the class `Tree` with the fields
  `root` and `size` and the invariant `Valid()` (the root is a search tree
  and `size` is its number of items), and the two iterator classes, each
  holding its stack of pending nodes as a sequence whose last element is
  the top. Each iterator's `Remaining()` is what it still has to yield,
  computed from the stack; every `Next` is proved to yield the head of
  `Remaining()` and leave its tail.
  - `InOrderIterator`, despite its name, yields the **pre-order** sequence
    (node, left subtree, right subtree): `next` pushes the right child and
    then the left child of the node it pops. The model follows the code,
    as the crate's own test expecting `[5, 1, 3, 2, 4, 6, 9]` does.
  - `LeftIterator` yields the true in-order sequence by pushing left spines
    (`add_all_left`).
- `client.dfy` (module `Client`): collecting either iterator to the end, and
  the crate's test scenarios as methods with their expected results in the
  postconditions.

`TreeNode::item` is the datatype field `item`; `Tree::root` returns the root
subtree (`Leaf` for `None`).

## Model

| member | source | states |
|---|---|---|
| Nodes.NewNode | src/lib.rs:53-55 | a new node holds exactly its item, has no children and is a search tree |
| Nodes.Add | src/lib.rs:57-69 | insertion always yields a node, never an empty slot |
| Nodes.AddItems | src/lib.rs:57-69 | the items after insertion are the items before plus exactly the new item, duplicates included |
| Nodes.AddMultiplicity | src/lib.rs:57-69 | insertion raises the count of the new item by one and leaves every other item's count unchanged |
| Nodes.AddPreservesBst | src/lib.rs:57-69 | insertion keeps the search-tree invariant: left items are less than the node's item, right items are at least it |
| Nodes.AddAttachesLeaf | src/lib.rs:57-69 | insertion fills exactly one empty slot with a childless node holding the item; every existing node keeps its item and its other child |
| Nodes.FromSeqItems | tests/bt_test.rs:21-25 | adding a list of items one by one to an empty tree stores exactly those items |
| Nodes.Contains | src/lib.rs:75-89 | a positive lookup answer means the item is stored, on any tree; on a search tree lookup is true exactly when the item is stored |
| Nodes.AddThenContains | src/lib.rs:57-89 | an item is found right after it is added, on any tree |
| Nodes.ContainsPersists | src/lib.rs:57-89 | an item that is found is still found after any further insertion |
| Traversals.InOrderElements | src/lib.rs:155-168 | the in-order sequence lists each stored item exactly as often as it is stored |
| Traversals.PreOrderElements | src/lib.rs:108-125 | the pre-order sequence lists each stored item exactly as often as it is stored and starts with the root's item |
| Traversals.InOrderSorted | src/lib.rs:57-69 | the in-order sequence of a search tree is sorted in non-decreasing order |
| Traversals.AddKeepsInOrderSorted | src/lib.rs:57-69 | insertion into a search tree leaves its in-order sequence sorted |
| Traversals.AddInOrder | src/lib.rs:57-69 | on a search tree, insertion puts the new item into the in-order sequence after every item not greater than it and before every greater item |
| BinaryTree.Tree.constructor | src/lib.rs:8-10 | a new tree is valid, has no root and has size 0 |
| BinaryTree.Tree.Add | src/lib.rs:12-18 | size grows by exactly one, even for a duplicate; the root becomes the insertion result, which attaches one leaf; the tree stays valid |
| BinaryTree.Tree.Contains | src/lib.rs:20-25 | an empty tree contains nothing; a positive answer means the item is stored; on a valid tree the answer is exactly membership; the tree is only read |
| BinaryTree.Tree.Size | src/lib.rs:27-29 | on a valid tree the size is the number of stored items |
| BinaryTree.Tree.Root | src/lib.rs:31-33 | on a valid tree the root is a search tree holding `size` items |
| BinaryTree.Tree.InOrderIter | src/lib.rs:35-37 | the new iterator has the tree's pre-order sequence still to yield |
| BinaryTree.Tree.LeftIter | src/lib.rs:39-41 | the new iterator has the tree's in-order sequence still to yield |
| BinaryTree.PreOrderPendingPush | src/lib.rs:114-121 | pushing a child onto the stack puts its pre-order sequence in front of what was pending |
| BinaryTree.PreOrderPendingEmpty | src/lib.rs:108-110 | a stack of nodes has nothing pending only when it is empty |
| BinaryTree.PreOrderPendingPop | src/lib.rs:111-122 | popping a node and pushing its right then its left child leaves its item followed by the rest of what was pending |
| BinaryTree.InOrderIterator.constructor | src/lib.rs:97-102 | the stack holds the root when there is one and is empty otherwise; the whole pre-order sequence is pending |
| BinaryTree.InOrderIterator.Next | src/lib.rs:108-125 | an empty stack yields None and stays empty; otherwise the top is popped, its right then its left child are pushed, and its item, the head of the pending pre-order sequence, is yielded and removed |
| BinaryTree.InOrderIterator.Collect | tests/bt_test.rs:42 | calling next until None yields exactly the pending sequence and leaves nothing pending |
| BinaryTree.LeftSpine | src/lib.rs:142-148 | the left spine of a node starts with the node and holds only nodes |
| BinaryTree.InOrderPendingSpine | src/lib.rs:142-148 | pushing a subtree's left spine puts that subtree's in-order sequence in front of what was pending |
| BinaryTree.InOrderPendingEmpty | src/lib.rs:156-157 | a stack of nodes has nothing pending only when it is empty |
| BinaryTree.LeftIterator.constructor | src/lib.rs:133-140 | the stack is the root's left spine (empty for an empty tree); the whole in-order sequence is pending |
| BinaryTree.LeftIterator.AddAllLeft | src/lib.rs:142-148 | the subtree's left spine is pushed, so its in-order sequence comes before what was pending |
| BinaryTree.LeftIterator.Next | src/lib.rs:155-168 | an empty stack yields None and stays empty; otherwise the top is popped, the left spine of its right child is pushed, and its item, the head of the pending in-order sequence, is yielded and removed |
| BinaryTree.LeftIterator.Collect | tests/bt_test.rs:55 | calling next until None yields exactly the pending sequence and leaves nothing pending |
| Client.CollectInOrderIter | tests/bt_test.rs:42 | collecting the "in-order" iterator yields the pre-order sequence, every stored item exactly as often as it is stored, `size` items on a valid tree |
| Client.CollectLeftIter | tests/bt_test.rs:55 | collecting the left iterator yields the in-order sequence with every stored item; on a valid tree it is sorted and has `size` items |
| Client.Build | tests/bt_test.rs:21-25 | adding a list one item at a time gives a valid tree of the list's length holding exactly the list's items |
| Client.NewTreeExample | tests/bt_test.rs:4-8 | a new tree has size 0 and no root |
| Client.AddOnceExample | tests/bt_test.rs:11-17 | after adding 0 to a new tree the size is 1 and the root holds 0 |
| Client.AddExample | tests/bt_test.rs:20-31 | after adding 1, 2, 5, 3, 6, 4, 9 each of them is found and the size is 7; as a further check beyond the test's, 7 is not found |
| Client.SampleTree | tests/bt_test.rs:36-40 | adding 5, 1, 3, 4, 6, 2, 9 gives the tree with root 5, left child 1 (right child 3 with children 2 and 4) and right child 6 (right child 9) |
| Client.InOrderIterExample | tests/bt_test.rs:34-45 | the "in-order" iterator over that tree yields 5, 1, 3, 2, 4, 6, 9 |
| Client.LeftIterExample | tests/bt_test.rs:47-58 | the left iterator over that tree yields 1, 2, 3, 4, 5, 6, 9 |

## Left out

- Items are mathematical integers under their total order. The crate is generic over `PartialOrd`, and its behaviour with incomparable values (NaN-like) is not defined, so it is not modelled.
- `Box` allocation and in-place mutation of owned child boxes are modelled on values: each box has exactly one owner, so replacing a subtree by its updated value is the same as updating it in place.
- BinaryTree.Tree.Add: does not model the `usize` overflow of `size`, because every increment allocates a node, so the count cannot exceed the address space.
- Lifetimes and borrowing are not modelled. An iterator holds a snapshot of the tree's nodes; the borrow checker forbids changing the tree while an iterator borrows it, so the snapshot equals the live tree.
- The `Iterator` trait beyond `next` is not modelled; `collect()` is modelled as the `Collect` methods, which call `Next` until it yields `None`.
- The `Copy`, `Debug` and `#[derive(Debug)]` bounds and derives carry no logic. The `println!` in the tests is output only.
