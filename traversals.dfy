/** The two traversal orders the iterators produce, stated as functions on
    subtrees, and what they promise on a search tree. */
module Traversals {
  import opened Nodes

  /** Left subtree, then the node, then the right subtree. */
  function InOrder(t: Subtree): seq<int>
  {
    match t
    case Leaf => []
    case Node(l, v, r) => InOrder(l) + [v] + InOrder(r)
  }

  /** The node, then its left subtree, then its right subtree. */
  function PreOrder(t: Subtree): seq<int>
  {
    match t
    case Leaf => []
    case Node(l, v, r) => [v] + PreOrder(l) + PreOrder(r)
  }

  /** The in-order sequence lists every item exactly as often as it is stored. */
  lemma {:induction false} InOrderElements(t: Subtree)
    ensures multiset(InOrder(t)) == Items(t)
  {
    match t
    case Leaf =>
    case Node(l, v, r) =>
      InOrderElements(l);
      InOrderElements(r);
  }

  /** The pre-order sequence lists every item exactly as often as it is
      stored, and starts with the root's item. */
  lemma {:induction false} PreOrderElements(t: Subtree)
    ensures multiset(PreOrder(t)) == Items(t)
    ensures t.Node? ==> PreOrder(t) != [] && PreOrder(t)[0] == t.item
  {
    match t
    case Leaf =>
    case Node(l, v, r) =>
      PreOrderElements(l);
      PreOrderElements(r);
  }

  ghost predicate Sorted(s: seq<int>)
  {
    forall i, j :: 0 <= i < j < |s| ==> s[i] <= s[j]
  }

  /** Reference insertion into a list: `x` is placed just before the first
      element greater than it, so after every element it is not less than. */
  function InsertSorted(s: seq<int>, x: int): seq<int>
  {
    if s == [] then [x]
    else if s[0] > x then [x] + s
    else [s[0]] + InsertSorted(s[1..], x)
  }

  /** List insertion adds exactly `x` to the elements. */
  lemma {:induction false} InsertSortedElements(s: seq<int>, x: int)
    ensures multiset(InsertSorted(s, x)) == multiset(s) + multiset{x}
  {
    if s != [] && s[0] <= x {
      InsertSortedElements(s[1..], x);
      assert s == [s[0]] + s[1..];
    }
  }

  /** Every element of `s` lies strictly below `v`. */
  ghost predicate AllBelow(s: seq<int>, v: int)
  {
    forall i :: 0 <= i < |s| ==> s[i] < v
  }

  /** Every element of `s` lies at or above `v`. */
  ghost predicate AllAtLeast(s: seq<int>, v: int)
  {
    forall i :: 0 <= i < |s| ==> v <= s[i]
  }

  /** Two sorted runs joined around `v`, all of `a` below it and all of `b` at
      or above it, form one sorted sequence. */
  lemma SortedAround(a: seq<int>, v: int, b: seq<int>)
    requires Sorted(a) && Sorted(b)
    requires AllBelow(a, v) && AllAtLeast(b, v)
    ensures Sorted(a + [v] + b)
  {
  }

  /** The elements of the in-order sequence of `t` are bounded as its items are. */
  lemma InOrderBounds(t: Subtree, v: int)
    ensures (forall y :: y in Items(t) ==> y < v) ==> AllBelow(InOrder(t), v)
    ensures (forall y :: y in Items(t) ==> v <= y) ==> AllAtLeast(InOrder(t), v)
  {
    var s := InOrder(t);
    InOrderElements(t);
    forall i | 0 <= i < |s| ensures s[i] in Items(t) {
      assert s[i] in multiset(s);
    }
  }

  /** The in-order sequence of a search tree is sorted. */
  lemma {:induction false} InOrderSorted(t: Subtree)
    requires IsBst(t)
    ensures Sorted(InOrder(t))
  {
    match t
    case Leaf =>
    case Node(l, v, r) =>
      InOrderSorted(l);
      InOrderSorted(r);
      InOrderBounds(l, v);
      InOrderBounds(r, v);
      SortedAround(InOrder(l), v, InOrder(r));
  }

  /** Inserting into a sorted list keeps it sorted. */
  lemma {:induction false} InsertSortedSorted(s: seq<int>, x: int)
    requires Sorted(s)
    ensures Sorted(InsertSorted(s, x))
  {
    if s != [] && s[0] <= x {
      InsertSortedSorted(s[1..], x);
      InsertSortedElements(s[1..], x);
      var rest := InsertSorted(s[1..], x);
      forall y | y in multiset(rest) ensures s[0] <= y {
        assert y in multiset(s[1..]) + multiset{x};
        if y in multiset(s[1..]) {
          var k :| 0 <= k < |s[1..]| && s[1..][k] == y;
          assert s[k + 1] == y;
        }
      }
      forall j | 0 <= j < |rest| ensures s[0] <= rest[j] {
        assert rest[j] in multiset(rest);
      }
    }
  }

  /** Elements not greater than `x` in front of the list are skipped over. */
  lemma {:induction false} InsertSortedAfter(a: seq<int>, b: seq<int>, x: int)
    requires forall i :: 0 <= i < |a| ==> a[i] <= x
    ensures InsertSorted(a + b, x) == a + InsertSorted(b, x)
  {
    if a != [] {
      var rest := a[1..];
      assert forall i :: 0 <= i < |rest| ==> rest[i] <= x by {
        forall i | 0 <= i < |rest| ensures rest[i] <= x {
          assert rest[i] == a[i + 1];
        }
      }
      InsertSortedAfter(rest, b, x);
      calc {
        InsertSorted(a + b, x);
        { assert (a + b)[0] == a[0] && (a + b)[1..] == rest + b; }
        [a[0]] + InsertSorted(rest + b, x);
        [a[0]] + (rest + InsertSorted(b, x));
        { assert a == [a[0]] + rest; }
        a + InsertSorted(b, x);
      }
    } else {
      assert a + b == b;
    }
  }

  /** Insertion stops at an element greater than `x`. */
  lemma {:induction false} InsertSortedBefore(a: seq<int>, c: seq<int>, x: int)
    requires c != [] && c[0] > x
    ensures InsertSorted(a + c, x) == InsertSorted(a, x) + c
  {
    if a == [] {
      assert a + c == c;
    } else if a[0] > x {
    } else {
      assert (a + c)[1..] == a[1..] + c;
      InsertSortedBefore(a[1..], c, x);
    }
  }

  /** The step of AddInOrder where the new item goes into the left subtree. */
  lemma AddInOrderLeft(l: Subtree, v: int, r: Subtree, x: int)
    requires v > x
    requires InOrder(Add(l, x)) == InsertSorted(InOrder(l), x)
    ensures InOrder(Add(Node(l, v, r), x)) == InsertSorted(InOrder(Node(l, v, r)), x)
  {
    var a, back := InOrder(l), [v] + InOrder(r);
    var a' := InOrder(Add(l, x));
    assert InOrder(Node(l, v, r)) == a + back by {
    }
    assert InOrder(Add(Node(l, v, r), x)) == a' + back by {
      assert Add(Node(l, v, r), x) == Node(Add(l, x), v, r);
      assert a' + [v] + InOrder(r) == a' + back;
    }
    InsertSortedBefore(a, back, x);
  }

  /** Every item of a left subtree precedes an item that goes right. */
  lemma FrontNotAbove(l: Subtree, v: int, x: int)
    requires v <= x
    requires forall y :: y in Items(l) ==> y < v
    ensures forall i :: 0 <= i < |InOrder(l) + [v]| ==> (InOrder(l) + [v])[i] <= x
  {
    InOrderBounds(l, v);
    var a := InOrder(l);
    forall i | 0 <= i < |a + [v]| ensures (a + [v])[i] <= x {
      if i < |a| {
        assert (a + [v])[i] == a[i];
      }
    }
  }

  /** The step of AddInOrder where the new item goes into the right subtree. */
  lemma AddInOrderRight(l: Subtree, v: int, r: Subtree, x: int)
    requires v <= x
    requires forall y :: y in Items(l) ==> y < v
    requires InOrder(Add(r, x)) == InsertSorted(InOrder(r), x)
    ensures InOrder(Add(Node(l, v, r), x)) == InsertSorted(InOrder(Node(l, v, r)), x)
  {
    var front, b := InOrder(l) + [v], InOrder(r);
    assert InOrder(Node(l, v, r)) == front + b;
    assert InOrder(Add(Node(l, v, r), x)) == front + InOrder(Add(r, x));
    FrontNotAbove(l, v, x);
    InsertSortedAfter(front, b, x);
  }

  /** On a search tree, Add places the new item in the in-order sequence
      exactly where list insertion would: after every item not greater than
      it, before every item greater than it. */
  lemma {:induction false} AddInOrder(t: Subtree, x: int)
    requires IsBst(t)
    ensures InOrder(Add(t, x)) == InsertSorted(InOrder(t), x)
  {
    match t
    case Leaf =>
    case Node(l, v, r) =>
      if v > x {
        AddInOrder(l, x);
        AddInOrderLeft(l, v, r, x);
      } else {
        AddInOrder(r, x);
        AddInOrderRight(l, v, r, x);
      }
  }

  /** Insertion into a search tree keeps its in-order sequence sorted: the
      sequence is the sorted list insertion of the new item. */
  lemma AddKeepsInOrderSorted(t: Subtree, x: int)
    requires IsBst(t)
    ensures Sorted(InOrder(Add(t, x)))
  {
    AddInOrder(t, x);
    InOrderSorted(t);
    InsertSortedSorted(InOrder(t), x);
  }
}
