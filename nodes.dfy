/** Tree nodes of the unbalanced binary search tree, and the two recursive
    operations on them: insertion (TreeNode::add) and lookup
    (TreeNode::contains). Items are integers under their usual total order. */
module Nodes {

  /** An optional node. `Leaf` is an absent child slot (or an absent root);
      `Node` is a node that owns its item and its two child slots. */
  datatype Subtree = Leaf | Node(left: Subtree, item: int, right: Subtree)

  /** The items stored in `t`, with their multiplicities. */
  ghost function Items(t: Subtree): multiset<int>
  {
    match t
    case Leaf => multiset{}
    case Node(l, v, r) => Items(l) + multiset{v} + Items(r)
  }

  /** The search-tree invariant the insertion rule keeps: at every node, the
      left subtree holds only items strictly less than the node's item and the
      right subtree only items greater than or equal to it. */
  ghost predicate IsBst(t: Subtree)
  {
    match t
    case Leaf => true
    case Node(l, v, r) =>
      && (forall y :: y in Items(l) ==> y < v)
      && (forall y :: y in Items(r) ==> v <= y)
      && IsBst(l)
      && IsBst(r)
  }

  /** TreeNode::new: a node with no children. */
  function NewNode(item: int): (t: Subtree)
    ensures t.Node? && t.item == item
    ensures Items(t) == multiset{item}
    ensures IsBst(t)
  {
    Node(Leaf, item, Leaf)
  }

  /** Insertion into a child slot: an empty slot receives a new node;
      otherwise the item goes left exactly when the node's item is greater,
      and right otherwise (so an equal item goes right). This is the
      `None => new node, Some(t) => t.add(item)` step shared by Tree::add and
      both branches of TreeNode::add. */
  function Add(t: Subtree, x: int): (t': Subtree)
    ensures t'.Node?
  {
    match t
    case Leaf => NewNode(x)
    case Node(l, v, r) =>
      if v > x then Node(Add(l, x), v, r) else Node(l, v, Add(r, x))
  }

  /** The tree obtained by adding `items` one after the other, first to
      last, to an empty tree. */
  function FromSeq(items: seq<int>): Subtree
  {
    if items == [] then Leaf
    else Add(FromSeq(items[..|items| - 1]), items[|items| - 1])
  }

  /** TreeNode::contains, with an empty slot answering false: equality is
      tested first, then the search goes left when the node's item is greater
      and right otherwise. A positive answer is always backed by a stored
      item, whatever the shape of the tree; on a search tree the answer is
      exactly membership. */
  function Contains(t: Subtree, x: int): (b: bool)
    ensures b ==> x in Items(t)
    ensures IsBst(t) ==> (b <==> x in Items(t))
  {
    match t
    case Leaf => false
    case Node(l, v, r) =>
      if v == x then true
      else if v > x then Contains(l, x)
      else Contains(r, x)
  }

  /** `t'` is `t` with exactly one empty slot filled by a childless node
      holding `x`: every node of `t` is still there with the same item and the
      same children, except for that one slot. */
  ghost predicate AttachedLeaf(t: Subtree, t': Subtree, x: int)
  {
    match t
    case Leaf => t' == Node(Leaf, x, Leaf)
    case Node(l, v, r) =>
      && t'.Node?
      && t'.item == v
      && ((AttachedLeaf(l, t'.left, x) && t'.right == r)
          || (t'.left == l && AttachedLeaf(r, t'.right, x)))
  }

  /** Insertion adds exactly the new item: the multiset of items grows by
      `x` and by nothing else. */
  lemma {:induction false} AddItems(t: Subtree, x: int)
    ensures Items(Add(t, x)) == Items(t) + multiset{x}
  {
    forall y ensures Items(Add(t, x))[y] == (Items(t) + multiset{x})[y] {
      AddMultiplicity(t, x, y);
    }
  }

  /** The multiplicity form of AddItems, proved one item at a time. */
  lemma {:induction false} AddMultiplicity(t: Subtree, x: int, y: int)
    ensures Items(Add(t, x))[y] == Items(t)[y] + (if y == x then 1 else 0)
  {
    match t
    case Leaf =>
    case Node(l, v, r) =>
      if v > x {
        AddMultiplicity(l, x, y);
      } else {
        AddMultiplicity(r, x, y);
      }
  }

  /** Adding a list of items stores exactly those items. */
  lemma {:induction false} FromSeqItems(items: seq<int>)
    ensures Items(FromSeq(items)) == multiset(items)
    decreases |items|
  {
    if items != [] {
      var n := |items| - 1;
      var prefix := FromSeq(items[..n]);
      calc {
        Items(FromSeq(items));
        Items(Add(prefix, items[n]));
        { AddItems(prefix, items[n]); }
        Items(prefix) + multiset{items[n]};
        { FromSeqItems(items[..n]); }
        multiset(items[..n]) + multiset{items[n]};
        multiset(items[..n] + [items[n]]);
        { assert items[..n] + [items[n]] == items; }
        multiset(items);
      }
    }
  }

  /** Insertion keeps the search-tree invariant. */
  lemma {:induction false} AddPreservesBst(t: Subtree, x: int)
    requires IsBst(t)
    ensures IsBst(Add(t, x))
  {
    match t
    case Leaf =>
    case Node(l, v, r) =>
      if v > x {
        AddPreservesBst(l, x);
        AddItems(l, x);
        var l' := Add(l, x);
        assert forall y :: y in Items(l') ==> y < v;
        assert Add(t, x) == Node(l', v, r);
      } else {
        AddPreservesBst(r, x);
        AddItems(r, x);
        var r' := Add(r, x);
        assert forall y :: y in Items(r') ==> v <= y;
        assert Add(t, x) == Node(l, v, r');
      }
  }

  /** Insertion only attaches one new leaf; nothing already in the tree moves
      or changes. */
  lemma {:induction false} AddAttachesLeaf(t: Subtree, x: int)
    ensures AttachedLeaf(t, Add(t, x), x)
  {
    match t
    case Leaf =>
    case Node(l, v, r) =>
      if v > x {
        AddAttachesLeaf(l, x);
      } else {
        AddAttachesLeaf(r, x);
      }
  }

  /** An item is found right after it is added, on any tree: lookup follows
      the same path that insertion took. */
  lemma {:induction false} AddThenContains(t: Subtree, x: int)
    ensures Contains(Add(t, x), x)
  {
    match t
    case Leaf =>
    case Node(l, v, r) =>
      if v > x {
        AddThenContains(l, x);
      } else if v != x {
        AddThenContains(r, x);
      }
  }

  /** An item that is found stays found after any later insertion, on any
      tree: insertion only fills empty slots, and a successful search never
      reaches one. */
  lemma {:induction false} ContainsPersists(t: Subtree, y: int, x: int)
    requires Contains(t, y)
    ensures Contains(Add(t, x), y)
  {
    match t
    case Leaf =>
    case Node(l, v, r) =>
      if v == y {
      } else if v > y {
        if v > x {
          ContainsPersists(l, y, x);
        }
      } else {
        if v <= x {
          ContainsPersists(r, y, x);
        }
      }
  }
}
