/** Callers of the tree: draining an iterator with repeated `next` calls (what
    `collect()` does), and the scenarios of tests/bt_test.rs. */
module Client {
  import opened Nodes
  import opened Traversals
  import opened BinaryTree

  /** `t.in_order_iter().collect()`: every item once per insertion, in
      pre-order. */
  method CollectInOrderIter(t: Tree) returns (out: seq<int>)
    ensures out == PreOrder(t.root)
    ensures multiset(out) == Items(t.root)
    ensures t.Valid() ==> |out| == t.size
  {
    var it := t.InOrderIter();
    out := it.Collect();
    PreOrderElements(t.root);
  }

  /** `t.left_iter().collect()`: every item once per insertion, in order,
      hence sorted on a valid tree. */
  method CollectLeftIter(t: Tree) returns (out: seq<int>)
    ensures out == InOrder(t.root)
    ensures multiset(out) == Items(t.root)
    ensures t.Valid() ==> Sorted(out) && |out| == t.size
  {
    var it := t.LeftIter();
    out := it.Collect();
    InOrderElements(t.root);
    if t.Valid() {
      InOrderSorted(t.root);
    }
  }

  /** Adds the items one after the other to a new tree, as the tests do:
      the size is the number of insertions, duplicates included. */
  method Build(items: seq<int>) returns (t: Tree)
    ensures fresh(t)
    ensures t.Valid()
    ensures t.root == FromSeq(items)
    ensures t.size == |items|
    ensures Items(t.root) == multiset(items)
  {
    t := new Tree();
    for i := 0 to |items|
      invariant t.Valid()
      invariant t.root == FromSeq(items[..i])
      invariant t.size == i
    {
      assert items[..i + 1][..i] == items[..i];
      t.Add(items[i]);
    }
    assert items[..|items|] == items;
    FromSeqItems(items);
  }

  /** test_new: a new tree has size 0 and no root. */
  method NewTreeExample() returns (size: nat, hasRoot: bool)
    ensures size == 0 && !hasRoot
  {
    var t := new Tree();
    size := t.Size();
    hasRoot := t.Root().Node?;
  }

  /** test_add_once: one item gives size 1 and that item at the root. */
  method AddOnceExample() returns (size: nat, rootItem: int)
    ensures size == 1 && rootItem == 0
  {
    var t := new Tree();
    t.Add(0);
    size := t.Size();
    rootItem := t.Root().item;
  }

  /** test_add: every added item is found and the size is the number of
      insertions. That 7, never added, is not found is a further check of
      this model, beyond those of test_add. */
  method AddExample() returns (found: seq<bool>, size: nat, foundSeven: bool)
    ensures found == [true, true, true, true, true, true, true]
    ensures size == 7
    ensures !foundSeven
  {
    var t := Build([1, 2, 5, 3, 6, 4, 9]);
    found := [t.Contains(1), t.Contains(2), t.Contains(5), t.Contains(3),
              t.Contains(6), t.Contains(4), t.Contains(9)];
    size := t.Size();
    foundSeven := t.Contains(7);
  }

  /** Adds 5, 1, 3, 4, 6, 2, 9 to a new tree, as the iterator tests do. */
  method SampleTree() returns (t: Tree)
    ensures fresh(t)
    ensures t.root == Node(Node(Leaf, 1, Node(Node(Leaf, 2, Leaf), 3, Node(Leaf, 4, Leaf))), 5,
                           Node(Leaf, 6, Node(Leaf, 9, Leaf)))
  {
    t := new Tree();
    t.Add(5);
    t.Add(1);
    t.Add(3);
    assert t.root == Node(Node(Leaf, 1, Node(Leaf, 3, Leaf)), 5, Leaf);
    t.Add(4);
    t.Add(6);
    assert t.root == Node(Node(Leaf, 1, Node(Leaf, 3, Node(Leaf, 4, Leaf))), 5, Node(Leaf, 6, Leaf));
    t.Add(2);
    t.Add(9);
  }

  /** test_in_order_iter: the iterator named in-order yields the pre-order
      sequence. */
  method InOrderIterExample() returns (out: seq<int>)
    ensures out == [5, 1, 3, 2, 4, 6, 9]
  {
    var t := SampleTree();
    var it := t.InOrderIter();
    out := it.Collect();
    assert PreOrder(Node(Node(Leaf, 1, Node(Node(Leaf, 2, Leaf), 3, Node(Leaf, 4, Leaf))), 5,
                         Node(Leaf, 6, Node(Leaf, 9, Leaf))))
        == [5, 1, 3, 2, 4, 6, 9];
  }

  /** test_left_iter: the left iterator yields the sorted sequence. */
  method LeftIterExample() returns (out: seq<int>)
    ensures out == [1, 2, 3, 4, 5, 6, 9]
  {
    var t := SampleTree();
    var it := t.LeftIter();
    out := it.Collect();
    assert InOrder(Node(Node(Leaf, 1, Node(Node(Leaf, 2, Leaf), 3, Node(Leaf, 4, Leaf))), 5,
                        Node(Leaf, 6, Node(Leaf, 9, Leaf))))
        == [1, 2, 3, 4, 5, 6, 9];
  }
}
