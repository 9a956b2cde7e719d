/** The in-order iterator of the AVL tree (`AVLTree::Iterator`).  The
    iterator is a stack of node pointers; here the stack is a sequence of
    subtrees whose last element is the top.  A pointer to a node is
    modelled by the subtree rooted there, so two tops are "the same node"
    when they are the same subtree.

    The central view is `Remaining`: what the iterator still has to yield,
    which is, from the top of the stack down, each node's value followed by
    the in-order sequence of its right subtree. */
module AvlIterator {
  import opened AvlTree

  /** `Iterator { std::stack<Node*> nodeStack }`, top last. */
  datatype Iterator = Iterator(stack: seq<Tree>)

  /** The stack never holds a null node. */
  ghost predicate NoNil(s: seq<Tree>)
  {
    forall i :: 0 <= i < |s| ==> s[i].Node?
  }

  /** The values still to be produced, top of the stack first. */
  function Remaining(s: seq<Tree>): seq<int>
  {
    if |s| == 0 then []
    else
      var n := s[|s| - 1];
      (if n.Node? then [n.value] + InOrder(n.right) else []) + Remaining(s[..|s| - 1])
  }

  /** A stack of nodes has something left to yield exactly when it is not
      empty. */
  lemma RemainingEmpty(s: seq<Tree>)
    requires NoNil(s)
    ensures |Remaining(s)| == 0 <==> |s| == 0
  {
  }

  /** Pushing one more node onto the stack puts its value and its right
      subtree in front of what was left. */
  lemma RemainingPush(s: seq<Tree>, n: Tree)
    requires n.Node?
    ensures Remaining(s + [n]) == [n.value] + InOrder(n.right) + Remaining(s)
  {
    assert (s + [n])[..|s|] == s;
  }

  /** The number of nodes on a subtree's left spine. */
  function SpineLength(t: Tree): nat
  {
    if t.Nil? then 0 else 1 + SpineLength(t.left)
  }

  /** `pushLeftNodes(node)`: push the node, then its left child, and so on
      until a null link.  The stack below is kept, and the subtree's whole
      in-order sequence is put in front of what was left. */
  function PushLeft(s: seq<Tree>, t: Tree): (r: seq<Tree>)
    ensures |r| == |s| + SpineLength(t) && r[..|s|] == s
    decreases t
  {
    if t.Nil? then s
    else
      var r := PushLeft(s + [t], t.left);
      assert r[..|s|] == (r[..|s| + 1])[..|s|];
      r
  }

  /** Pushing a left spine pushes only nodes. */
  lemma {:induction false} PushLeftNoNil(s: seq<Tree>, t: Tree)
    requires NoNil(s)
    ensures NoNil(PushLeft(s, t))
    decreases t
  {
    if t.Node? {
      assert NoNil(s + [t]);
      PushLeftNoNil(s + [t], t.left);
    }
  }

  /** What the pushed stack yields: the subtree's in-order sequence, then
      what was left. */
  lemma {:induction false} PushLeftYields(s: seq<Tree>, t: Tree)
    ensures Remaining(PushLeft(s, t)) == InOrder(t) + Remaining(s)
    decreases t
  {
    if t.Node? {
      var below := s + [t];
      assert PushLeft(s, t) == PushLeft(below, t.left);
      PushLeftYields(below, t.left);
      RemainingPush(s, t);
      Regroup(InOrder(t.left), [t.value], InOrder(t.right), Remaining(s));
    }
  }

  /** The top of the pushed stack is the subtree's least node. */
  lemma {:induction false} PushLeftTop(s: seq<Tree>, t: Tree)
    requires t.Node?
    ensures PushLeft(s, t)[|s| + SpineLength(t) - 1] == MinNode(t)
    decreases t
  {
    if t.left.Node? {
      PushLeftTop(s + [t], t.left);
    }
  }

  /** `Iterator(Node*)` and `begin()`: the left spine from the root. */
  function Begin(t: Tree): (it: Iterator)
    ensures NoNil(it.stack)
    ensures Remaining(it.stack) == InOrder(t)
    ensures |it.stack| == 0 <==> t.Nil?
  {
    PushLeftNoNil([], t);
    PushLeftYields([], t);
    Iterator(PushLeft([], t))
  }

  /** `Iterator()` and `end()`: the empty stack. */
  function End(): (it: Iterator)
    ensures NoNil(it.stack) && Remaining(it.stack) == []
  {
    Iterator([])
  }

  /** `operator*`: the top node's value; the stack must not be empty. */
  function Deref(it: Iterator): (v: int)
    requires |it.stack| > 0 && it.stack[|it.stack| - 1].Node?
    ensures v == Remaining(it.stack)[0]
  {
    it.stack[|it.stack| - 1].value
  }

  /** `operator->` yields the address of the same value `operator*` does;
      as a value it is the same number. */
  function Arrow(it: Iterator): (v: int)
    requires |it.stack| > 0 && it.stack[|it.stack| - 1].Node?
    ensures v == Remaining(it.stack)[0]
  {
    Deref(it)
  }

  /** `operator++()`: pop the top and push the left spine of its right
      child.  Exactly the first remaining value is consumed. */
  function Advance(it: Iterator): (r: Iterator)
    requires |it.stack| > 0 && it.stack[|it.stack| - 1].Node?
    ensures NoNil(it.stack) ==> NoNil(r.stack)
    ensures |Remaining(it.stack)| > 0 && Remaining(r.stack) == Remaining(it.stack)[1..]
  {
    var s := it.stack;
    var rest := s[..|s| - 1];
    var top := s[|s| - 1];
    PopYields(s);
    PushLeftYields(rest, top.right);
    PopNoNil(s, top.right);
    Iterator(PushLeft(rest, top.right))
  }

  /** Popping a node leaves its right subtree and the stack below it. */
  lemma PopYields(s: seq<Tree>)
    requires |s| > 0 && s[|s| - 1].Node?
    ensures Remaining(s) == [s[|s| - 1].value] + (InOrder(s[|s| - 1].right) + Remaining(s[..|s| - 1]))
  {
  }

  /** Popping a node and pushing a left spine keeps the stack free of nulls. */
  lemma PopNoNil(s: seq<Tree>, t: Tree)
    requires |s| > 0
    ensures NoNil(s) ==> NoNil(PushLeft(s[..|s| - 1], t))
  {
    if NoNil(s) {
      PushLeftNoNil(s[..|s| - 1], t);
    }
  }

  /** `operator++(int)`: a copy of the iterator before the advance, and the
      advanced iterator. */
  function PostIncrement(it: Iterator): (r: (Iterator, Iterator))
    requires |it.stack| > 0 && it.stack[|it.stack| - 1].Node?
    ensures r.0.stack == it.stack
    ensures Remaining(r.1.stack) == Remaining(it.stack)[1..]
  {
    (it, Advance(it))
  }

  /** `operator==`: both stacks empty, or both non-empty with the same top
      node. */
  function Equals(a: Iterator, b: Iterator): (r: bool)
    ensures r <==> (|a.stack| == 0 && |b.stack| == 0) ||
                   (|a.stack| > 0 && |b.stack| > 0 &&
                    a.stack[|a.stack| - 1] == b.stack[|b.stack| - 1])
    ensures a == b ==> r
  {
    if |a.stack| == 0 && |b.stack| == 0 then true
    else if |a.stack| == 0 || |b.stack| == 0 then false
    else a.stack[|a.stack| - 1] == b.stack[|b.stack| - 1]
  }

  /** `operator!=`: exactly one stack empty, or two different tops. */
  function NotEquals(a: Iterator, b: Iterator): (r: bool)
    ensures r <==> (|a.stack| == 0) != (|b.stack| == 0) ||
                   (|a.stack| > 0 && |b.stack| > 0 &&
                    a.stack[|a.stack| - 1] != b.stack[|b.stack| - 1])
  {
    !Equals(a, b)
  }

  /** An iterator is at the end exactly when it has nothing left to yield. */
  lemma AtEndIffExhausted(it: Iterator)
    requires NoNil(it.stack)
    ensures !NotEquals(it, End()) <==> Remaining(it.stack) == []
  {
    RemainingEmpty(it.stack);
  }

  /** The first value `begin()` yields is the tree's least value. */
  lemma BeginAtMinimum(t: Tree)
    requires t.Node?
    ensures Deref(Begin(t)) == MinNode(t).value
    ensures Bst(t) ==> forall y :: y in Elements(t) ==> Deref(Begin(t)) <= y
  {
    PushLeftTop([], t);
  }

  /** The iterator after `k` prefix increments. */
  function AdvanceBy(it: Iterator, k: nat): (r: Iterator)
    requires NoNil(it.stack) && k <= |Remaining(it.stack)|
    ensures NoNil(r.stack) && Remaining(r.stack) == Remaining(it.stack)[k..]
    decreases k
  {
    if k == 0 then it
    else
      RemainingEmpty(it.stack);
      var next := Advance(it);
      var r := AdvanceBy(next, k - 1);
      assert Remaining(it.stack)[k..] == Remaining(next.stack)[k - 1..];
      r
  }

  /** Advancing `begin()` `k` times leaves the in-order sequence from
      position `k` on; after `Size(t)` steps the iterator equals `end()`. */
  lemma {:induction false} StepsFromBegin(t: Tree, k: nat)
    requires k <= Size(t)
    ensures Remaining(AdvanceBy(Begin(t), k).stack) == InOrder(t)[k..]
    ensures k == Size(t) <==> !NotEquals(AdvanceBy(Begin(t), k), End())
  {
    InOrderHasElements(t);
    var it := AdvanceBy(Begin(t), k);
    RemainingEmpty(it.stack);
  }

  /** Over a search tree, two iterators reached from `begin()` compare
      equal exactly when they were advanced the same number of times: every
      node is visited once. */
  lemma {:induction false} EqualIffSameStep(t: Tree, j: nat, k: nat)
    requires Bst(t) && j <= Size(t) && k <= Size(t)
    ensures Equals(AdvanceBy(Begin(t), j), AdvanceBy(Begin(t), k)) <==> j == k
  {
    InOrderHasElements(t);
    BstIffAscending(t);
    var a := AdvanceBy(Begin(t), j);
    var b := AdvanceBy(Begin(t), k);
    var s := InOrder(t);
    RemainingEmpty(a.stack);
    RemainingEmpty(b.stack);
    if j != k && Equals(a, b) {
      if |a.stack| > 0 {
        SameValue(s, j, k, Deref(a), Deref(b));
      }
    }
  }

  /** Two positions of a strictly ascending sequence holding the same value
      are the same position. */
  lemma SameValue(s: seq<int>, j: nat, k: nat, x: int, y: int)
    requires StrictlyAscending(s) && j < |s| && k < |s|
    requires s[j] == x && s[k] == y && x == y
    ensures j == k
  {
  }

  /** Moving the first value still to come onto the end of what was
      collected leaves their concatenation unchanged. */
  lemma Consume(out: seq<int>, left: seq<int>)
    requires |left| > 0
    ensures (out + [left[0]]) + left[1..] == out + left
  {
    assert left == [left[0]] + left[1..];
  }

  /** `for (auto it = begin(); it != end(); ++it)`: the loop collects the
      tree's in-order sequence, one value per node, in strictly ascending
      order when the tree is a search tree. */
  method Traverse(t: Tree) returns (out: seq<int>)
    ensures out == InOrder(t)
    ensures |out| == Size(t)
    ensures Bst(t) ==> StrictlyAscending(out)
    ensures forall y :: y in out <==> y in Elements(t)
  {
    var it := Begin(t);
    out := [];
    while NotEquals(it, End())
      invariant NoNil(it.stack)
      invariant out + Remaining(it.stack) == InOrder(t)
      decreases |Remaining(it.stack)|
    {
      var v := Deref(it);
      ghost var left := Remaining(it.stack);
      it := Advance(it);
      Consume(out, left);
      out := out + [v];
    }
    AtEndIffExhausted(it);
    InOrderHasElements(t);
    BstIffAscending(t);
  }
}
