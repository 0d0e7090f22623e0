/** The public tree handle and its two stack-based iterators. The handle owns
    the root and counts insertions; the iterators walk a snapshot of the nodes
    with an explicit stack whose top is the last element. */
module BinaryTree {
  import opened Nodes
  import opened Traversals

  datatype Option<T> = None | Some(value: T)

  /** A tree: an optional root and the number of items ever added. */
  class Tree {
    var root: Subtree
    var size: nat

    /** The object invariant: the nodes form a search tree and `size` counts
        them. */
    ghost predicate Valid()
      reads this
    {
      IsBst(root) && size == |Items(root)|
    }

    /** Tree::new: no root, size 0. */
    constructor ()
      ensures Valid()
      ensures root == Leaf && size == 0
    {
      root := Leaf;
      size := 0;
    }

    /** Tree::add: counts the item, then creates the root or inserts below
        it. Duplicates are accepted and counted. */
    method Add(item: int)
      requires Valid()
      modifies this
      ensures Valid()
      ensures size == old(size) + 1
      ensures root == Nodes.Add(old(root), item)
      ensures AttachedLeaf(old(root), root, item)
    {
      size := size + 1;
      AddPreservesBst(root, item);
      AddItems(root, item);
      AddAttachesLeaf(root, item);
      root := Nodes.Add(root, item);
    }

    /** Tree::contains: false without a root, otherwise the root's answer.
        On a valid tree this is exactly membership. */
    function Contains(item: int): (b: bool)
      reads this
      ensures root == Leaf ==> !b
      ensures b ==> item in Items(root)
      ensures Valid() ==> (b <==> item in Items(root))
    {
      Nodes.Contains(root, item)
    }

    /** Tree::size: the insertion count, which on a valid tree is the number
        of stored items. */
    function Size(): (n: nat)
      reads this
      ensures Valid() ==> n == |Items(root)|
    {
      size
    }

    /** Tree::root: read access to the root, a search tree holding `size`
        items when the tree is valid. */
    function Root(): (t: Subtree)
      reads this
      ensures Valid() ==> IsBst(t) && |Items(t)| == size
    {
      root
    }

    /** Tree::in_order_iter. Despite the source's name, this iterator yields
        the pre-order sequence (see InOrderIterator). */
    method InOrderIter() returns (it: InOrderIterator)
      ensures fresh(it)
      ensures it.Valid() && it.Remaining() == PreOrder(root)
    {
      it := new InOrderIterator(this);
    }

    /** Tree::left_iter: the iterator that yields the in-order sequence. */
    method LeftIter() returns (it: LeftIterator)
      ensures fresh(it)
      ensures it.Valid() && it.Remaining() == InOrder(root)
    {
      it := new LeftIterator(this);
    }
  }

  /** `[t]` when `t` is a node, nothing for an empty slot: the effect of the
      source's `match child { Some(t) => push(t), None => {} }`. */
  function Present(t: Subtree): seq<Subtree>
  {
    if t.Node? then [t] else []
  }

  /** Every entry of an iterator stack is a node, never an empty slot. */
  ghost predicate AllNodes(stack: seq<Subtree>)
  {
    forall i :: 0 <= i < |stack| ==> stack[i].Node?
  }

  /** What a pre-order stack still has to yield: the pre-order sequence of
      each entry, from the top of the stack (its last element) down. */
  function PreOrderPending(stack: seq<Subtree>): seq<int>
  {
    if stack == [] then []
    else PreOrder(stack[|stack| - 1]) + PreOrderPending(stack[..|stack| - 1])
  }

  /** Pushing a child that is present puts its pre-order sequence in front;
      an absent child adds nothing either way. */
  lemma PreOrderPendingPush(stack: seq<Subtree>, t: Subtree)
    ensures PreOrderPending(stack + Present(t)) == PreOrder(t) + PreOrderPending(stack)
  {
    if t.Node? {
      assert (stack + [t])[..|stack|] == stack;
    } else {
      assert stack + [] == stack;
    }
  }

  /** A stack of nodes has something left to yield exactly when it is not
      empty. */
  lemma {:induction false} PreOrderPendingEmpty(stack: seq<Subtree>)
    requires AllNodes(stack)
    ensures PreOrderPending(stack) == [] <==> stack == []
  {
    if stack != [] {
      PreOrderElements(stack[|stack| - 1]);
    }
  }

  /** One step of the pre-order walk: popping the top node and pushing its
      right and then its left child leaves exactly the rest of the output. */
  lemma PreOrderPendingPop(rest: seq<Subtree>, l: Subtree, v: int, r: Subtree)
    ensures PreOrderPending(rest + [Node(l, v, r)])
         == [v] + PreOrderPending(rest + Present(r) + Present(l))
  {
    var pending := PreOrderPending(rest);
    calc {
      PreOrderPending(rest + [Node(l, v, r)]);
      { assert Present(Node(l, v, r)) == [Node(l, v, r)];
        PreOrderPendingPush(rest, Node(l, v, r)); }
      [v] + PreOrder(l) + PreOrder(r) + pending;
      [v] + (PreOrder(l) + (PreOrder(r) + pending));
      { PreOrderPendingPush(rest, r); }
      [v] + (PreOrder(l) + PreOrderPending(rest + Present(r)));
      { PreOrderPendingPush(rest + Present(r), l); }
      [v] + PreOrderPending(rest + Present(r) + Present(l));
    }
  }

  /** The iterator the source calls InOrderIterator. Its `next` pops a node,
      pushes the right child and then the left child, and yields the popped
      item at once: a pre-order walk. */
  class InOrderIterator {
    var stack: seq<Subtree>

    ghost predicate Valid()
      reads this
    {
      AllNodes(stack)
    }

    /** The items still to be yielded, in order. */
    function Remaining(): seq<int>
      reads this
    {
      PreOrderPending(stack)
    }

    /** InOrderIterator::new: the root alone on the stack, or an empty stack. */
    constructor (t: Tree)
      ensures Valid()
      ensures stack == Present(t.root)
      ensures Remaining() == PreOrder(t.root)
    {
      stack := Present(t.root);
      new;
      PreOrderPendingPush([], t.root);
    }

    /** InOrderIterator::next: yields the first remaining item, or None once
        the stack is empty. */
    method Next() returns (r: Option<int>)
      requires Valid()
      modifies this
      ensures Valid()
      ensures old(stack) == [] ==> r == None && stack == []
      ensures old(stack) != [] ==>
        var top := old(stack[|stack| - 1]);
        stack == old(stack[..|stack| - 1]) + Present(top.right) + Present(top.left)
      ensures old(stack) != [] ==> r == Some(old(stack[|stack| - 1]).item)
      ensures r == None <==> old(Remaining()) == []
      ensures r == None ==> Remaining() == []
      ensures r.Some? ==> r.value == old(Remaining())[0] && Remaining() == old(Remaining())[1..]
    {
      PreOrderPendingEmpty(stack);
      var n := |stack|;
      if n == 0 {
        return None;
      }
      var current := stack[n - 1];
      assert stack == stack[..n - 1] + [Node(current.left, current.item, current.right)];
      PreOrderPendingPop(stack[..n - 1], current.left, current.item, current.right);
      stack := stack[..n - 1];
      stack := stack + Present(current.right);
      stack := stack + Present(current.left);
      r := Some(current.item);
    }
    /** `collect()`: calls Next until it yields None and gathers the items. */
    method Collect() returns (out: seq<int>)
      requires Valid()
      modifies this
      ensures Valid()
      ensures out == old(Remaining())
      ensures Remaining() == []
    {
      out := [];
      while true
        invariant Valid()
        invariant out + Remaining() == old(Remaining())
        decreases |Remaining()|
      {
        ghost var before := Remaining();
        var r := Next();
        if r.None? {
          break;
        }
        assert before == [r.value] + Remaining();
        out := out + [r.value];
      }
    }
  }

  /** The nodes reached from `t` by following left children, `t` first: the
      order in which add_all_left pushes them. */
  function LeftSpine(t: Subtree): (s: seq<Subtree>)
    ensures AllNodes(s)
    ensures t.Node? ==> s != [] && s[0] == t
  {
    match t
    case Leaf => []
    case Node(l, _, _) => [t] + LeftSpine(l)
  }

  /** What an in-order stack still has to yield: for each entry, from the top
      of the stack down, its item followed by the in-order sequence of its
      right subtree (its left subtree is already pushed above it or done). */
  function InOrderPending(stack: seq<Subtree>): seq<int>
  {
    if stack == [] then []
    else
      var t := stack[|stack| - 1];
      (match t
       case Leaf => []
       case Node(_, v, r) => [v] + InOrder(r))
      + InOrderPending(stack[..|stack| - 1])
  }

  /** Pushing a node puts its item and its right subtree in front. */
  lemma InOrderPendingPush(stack: seq<Subtree>, l: Subtree, v: int, r: Subtree)
    ensures InOrderPending(stack + [Node(l, v, r)]) == [v] + InOrder(r) + InOrderPending(stack)
  {
  }

  /** Pushing the left spine of `t` puts the whole in-order sequence of `t`
      in front of what the stack already had to yield. */
  lemma {:induction false} InOrderPendingSpine(stack: seq<Subtree>, t: Subtree)
    ensures InOrderPending(stack + LeftSpine(t)) == InOrder(t) + InOrderPending(stack)
    decreases t
  {
    match t
    case Leaf =>
      assert stack + [] == stack;
    case Node(l, v, r) =>
      calc {
        InOrderPending(stack + LeftSpine(t));
        { assert stack + LeftSpine(t) == (stack + [t]) + LeftSpine(l); }
        InOrderPending((stack + [t]) + LeftSpine(l));
        { InOrderPendingSpine(stack + [t], l); }
        InOrder(l) + InOrderPending(stack + [t]);
        { InOrderPendingPush(stack, l, v, r); }
        InOrder(l) + ([v] + InOrder(r) + InOrderPending(stack));
        InOrder(t) + InOrderPending(stack);
      }
  }

  /** A stack of nodes has something left to yield exactly when it is not
      empty. */
  lemma InOrderPendingEmpty(stack: seq<Subtree>)
    requires AllNodes(stack)
    ensures InOrderPending(stack) == [] <==> stack == []
  {
  }

  /** Popping the top node leaves its right subtree and the rest of the
      stack still to be yielded. */
  lemma InOrderPendingPop(stack: seq<Subtree>)
    requires stack != [] && stack[|stack| - 1].Node?
    ensures
      var top := stack[|stack| - 1];
      InOrderPending(stack) == [top.item] + InOrder(top.right) + InOrderPending(stack[..|stack| - 1])
  {
  }

  /** The iterator that walks the tree in order: left subtree, node, right
      subtree. */
  class LeftIterator {
    var stack: seq<Subtree>

    ghost predicate Valid()
      reads this
    {
      AllNodes(stack)
    }

    /** The items still to be yielded, in order. */
    function Remaining(): seq<int>
      reads this
    {
      InOrderPending(stack)
    }

    /** LeftIterator::new: pushes the left spine of the root, if any. */
    constructor (t: Tree)
      ensures Valid()
      ensures stack == LeftSpine(t.root)
      ensures Remaining() == InOrder(t.root)
    {
      stack := [];
      new;
      if t.root.Node? {
        AddAllLeft(t.root);
      }
    }

    /** LeftIterator::add_all_left: pushes `t` and then, recursively, its
        left child, down to the node with no left child. */
    method AddAllLeft(t: Subtree)
      requires Valid()
      requires t.Node?
      modifies this
      ensures Valid()
      ensures stack == old(stack) + LeftSpine(t)
      ensures Remaining() == InOrder(t) + old(Remaining())
      decreases t
    {
      stack := stack + [t];
      match t.left {
        case Leaf =>
        case Node(_, _, _) =>
          AddAllLeft(t.left);
      }
      assert stack == old(stack) + LeftSpine(t) by {
        assert LeftSpine(t) == [t] + LeftSpine(t.left);
        assert old(stack) + [t] + LeftSpine(t.left) == old(stack) + LeftSpine(t);
      }
      InOrderPendingSpine(old(stack), t);
    }

    /** LeftIterator::next: pops a node, pushes the left spine of its right
        child, and yields the popped item; None once the stack is empty. */
    method Next() returns (r: Option<int>)
      requires Valid()
      modifies this
      ensures Valid()
      ensures old(stack) == [] ==> r == None && stack == []
      ensures old(stack) != [] ==>
        stack == old(stack[..|stack| - 1]) + LeftSpine(old(stack[|stack| - 1]).right)
      ensures old(stack) != [] ==> r == Some(old(stack[|stack| - 1]).item)
      ensures r == None <==> old(Remaining()) == []
      ensures r == None ==> Remaining() == []
      ensures r.Some? ==> r.value == old(Remaining())[0] && Remaining() == old(Remaining())[1..]
    {
      InOrderPendingEmpty(stack);
      var n := |stack|;
      if n == 0 {
        return None;
      }
      var current := stack[n - 1];
      InOrderPendingPop(stack);
      stack := stack[..n - 1];
      match current.right {
        case Leaf =>
        case Node(_, _, _) =>
          AddAllLeft(current.right);
      }
      r := Some(current.item);
    }
    /** `collect()`: calls Next until it yields None and gathers the items. */
    method Collect() returns (out: seq<int>)
      requires Valid()
      modifies this
      ensures Valid()
      ensures out == old(Remaining())
      ensures Remaining() == []
    {
      out := [];
      while true
        invariant Valid()
        invariant out + Remaining() == old(Remaining())
        decreases |Remaining()|
      {
        ghost var before := Remaining();
        var r := Next();
        if r.None? {
          break;
        }
        assert before == [r.value] + Remaining();
        out := out + [r.value];
      }
    }
  }
}
