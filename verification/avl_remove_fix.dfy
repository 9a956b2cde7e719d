/** Removal and the height fields.  `removeNode` relinks the in-order
    successor in place but recomputes no height on the way down to it, so
    the successor's former parent keeps its old height and every height
    computed from it afterwards is too large.  The first part of this
    module exhibits that on a four-node tree; the second defines removal
    with the successor unlinked by the same recursive routine, so heights
    are recomputed and rebalanced along the successor path too, and proves
    that this removal keeps the AVL invariant. */
module AvlRemoveFix {
  import opened Container
  import opened AvlTree
  import opened AvlBalance

  // ---------------------------------------------------------------------
  // The stale height, as written

  /** The tree `insert` builds from 2, 1, 4, 3: 2 at the root, 1 on its
      left, 4 on its right with 3 below it on the left. */
  function Example(): Tree
  {
    Node(2, 3, Node(1, 1, Nil, Nil), Node(4, 2, Node(3, 1, Nil, Nil), Nil))
  }

  /** Inserting 2, 1, 4 and 3 into an empty tree, one at a time, builds
      `Example()`, and no insertion needs a rotation. */
  lemma InsertionsBuildExample()
    ensures Insert(Insert(Insert(Insert(EmptyTree(), 2).tree, 1).tree, 4).tree, 3).tree == Example()
  {
    InsertOne();
    InsertTwo();
    InsertThree();
    InsertFour();
  }

  lemma InsertOne()
    ensures Insert(EmptyTree(), 2).tree == Node(2, 1, Nil, Nil)
  {
    InsertIntoNull(2);
  }

  lemma InsertTwo()
    ensures Insert(Node(2, 1, Nil, Nil), 1).tree == Node(2, 2, Node(1, 1, Nil, Nil), Nil)
  {
    InsertIntoNull(1);
    GoesLeft(2, 1, Nil, Nil, 1);
    NoRotation(2, 1, Node(1, 1, Nil, Nil), Nil, 1, false);
  }

  lemma InsertThree()
    ensures Insert(Node(2, 2, Node(1, 1, Nil, Nil), Nil), 4).tree
            == Node(2, 2, Node(1, 1, Nil, Nil), Node(4, 1, Nil, Nil))
  {
    var one, four := Node(1, 1, Nil, Nil), Node(4, 1, Nil, Nil);
    InsertIntoNull(4);
    GoesRight(2, 2, one, Nil, 4);
    assert Height(one) == Height(four) == 1;
    NoRotation(2, 2, one, four, 4, true);
  }

  lemma InsertFour()
    ensures Insert(Node(2, 2, Node(1, 1, Nil, Nil), Node(4, 1, Nil, Nil)), 3).tree == Example()
  {
    InsertFourBelow();
    GoesRight(2, 2, Node(1, 1, Nil, Nil), Node(4, 1, Nil, Nil), 3);
    NoRotation(2, 2, Node(1, 1, Nil, Nil), Node(4, 2, Node(3, 1, Nil, Nil), Nil), 3, true);
  }

  lemma InsertFourBelow()
    ensures Insert(Node(4, 1, Nil, Nil), 3) == Updated(true, Node(4, 2, Node(3, 1, Nil, Nil), Nil))
  {
    InsertIntoNull(3);
    GoesLeft(4, 1, Nil, Nil, 3);
    NoRotation(4, 1, Node(3, 1, Nil, Nil), Nil, 3, false);
  }

  lemma InsertIntoNull(v: int)
    ensures Insert(Nil, v) == Updated(true, Node(v, 1, Nil, Nil))
  {
  }

  /** One step of `insert` below a node whose value is smaller. */
  lemma GoesRight(x: int, h: int, l: Tree, rt: Tree, v: int)
    requires x < v && Insert(rt, v).changed
    ensures Insert(Node(x, h, l, rt), v)
            == Updated(true, RebalanceAfterInsert(Node(x, h, l, Insert(rt, v).tree), v, true))
  {
  }

  /** One step of `insert` below a node whose value is larger. */
  lemma GoesLeft(x: int, h: int, l: Tree, rt: Tree, v: int)
    requires v < x && Insert(l, v).changed
    ensures Insert(Node(x, h, l, rt), v)
            == Updated(true, RebalanceAfterInsert(Node(x, h, Insert(l, v).tree, rt), v, false))
  {
  }

  /** With balanced stored child heights, the rebalancing step after an
      insertion only recomputes the height. */
  lemma NoRotation(x: int, h: int, l: Tree, rt: Tree, v: int, valueBigger: bool)
    requires -1 <= Height(l) - Height(rt) <= 1
    ensures RebalanceAfterInsert(Node(x, h, l, rt), v, valueBigger)
            == Node(x, 1 + Larger(Height(l), Height(rt)), l, rt)
  {
  }

  /** `Example()` is a valid AVL tree. */
  lemma ExampleIsAvl()
    ensures Avl(Example())
  {
    ExampleHeights();
    ExampleBalanced();
    ExampleOrdered();
  }

  lemma ExampleHeights()
    ensures HeightsCorrect(Example())
  {
    assert HeightsCorrect(Node(3, 1, Nil, Nil));
    assert HeightsCorrect(Node(4, 2, Node(3, 1, Nil, Nil), Nil));
    assert HeightsCorrect(Node(1, 1, Nil, Nil));
  }

  lemma ExampleBalanced()
    ensures Balanced(Example())
  {
    assert Balanced(Node(4, 2, Node(3, 1, Nil, Nil), Nil));
    assert Balanced(Node(1, 1, Nil, Nil));
  }

  lemma ExampleOrdered()
    ensures Bst(Example())
  {
    assert Elements(Node(4, 2, Node(3, 1, Nil, Nil), Nil)) == {3, 4};
    assert Bst(Node(4, 2, Node(3, 1, Nil, Nil), Nil));
  }

  /** Removing 2 from `Example()` relinks 3 at the root; node 4 keeps
      height 2 although it lost its only child, so `height()` reports 3 for
      a tree of depth 2 and the height fields are no longer correct. */
  lemma AsWrittenLeavesStaleHeight()
    ensures Avl(Example())
    ensures Remove(Example(), 2) == Updated(true, Stale())
    ensures TreeHeight(Remove(Example(), 2).tree) == 3
    ensures Depth(Remove(Example(), 2).tree) == 2
    ensures !HeightsCorrect(Remove(Example(), 2).tree)
  {
    ExampleIsAvl();
    RemoveTwo();
    StaleFacts();
  }

  /** The tree `remove(2)` leaves: 3 at the root, with 1 on its left and on
      its right the childless node 4 still carrying height 2. */
  function Stale(): Tree
  {
    Node(3, 3, Node(1, 1, Nil, Nil), Node(4, 2, Nil, Nil))
  }

  lemma RemoveTwo()
    ensures Remove(Example(), 2) == Updated(true, Stale())
  {
    RelinkSuccessor();
    RebalanceRelinked();
  }

  /** `removeNode` on the root of `Example()` relinks 3, which keeps its own
      height 1, above 1 and the now childless 4. */
  lemma RelinkSuccessor()
    ensures RemoveNode(Example()) == Node(3, 1, Node(1, 1, Nil, Nil), Node(4, 2, Nil, Nil))
  {
    SuccessorOfExample();
  }

  lemma SuccessorOfExample()
    ensures MinNode(Example().right) == Node(3, 1, Nil, Nil)
    ensures DetachMin(Example().right) == Node(4, 2, Nil, Nil)
  {
  }

  lemma RebalanceRelinked()
    ensures RebalanceAfterRemove(Node(3, 1, Node(1, 1, Nil, Nil), Node(4, 2, Nil, Nil))) == Stale()
  {
  }

  lemma StaleFacts()
    ensures TreeHeight(Stale()) == 3
    ensures Depth(Stale()) == 2
    ensures !HeightsCorrect(Stale())
  {
  }

  // ---------------------------------------------------------------------
  // Removal with heights maintained along the successor path

  /** `remove` with the two-child case completed as intended: the node
      takes its in-order successor's value and the successor is removed
      from the right subtree by this same routine, so every node on that
      path gets its height recomputed and its balance repaired.  All other
      cases are those of `AvlTree.Remove`. */
  function RemoveFixed(t: Tree, v: int): (r: Updated)
    ensures !r.changed ==> r.tree == t
    ensures r.changed ==> v in Elements(t)
    decreases t
  {
    match t
    case Nil => Updated(false, Nil)
    case Node(x, h, l, rt) =>
      if x < v then
        var sub := RemoveFixed(rt, v);
        if !sub.changed then Updated(false, t)
        else Updated(true, RebalanceAfterRemove(Node(x, h, l, sub.tree)))
      else if v < x then
        var sub := RemoveFixed(l, v);
        if !sub.changed then Updated(false, t)
        else Updated(true, RebalanceAfterRemove(Node(x, h, sub.tree, rt)))
      else if l.Nil? && rt.Nil? then Updated(true, Nil)
      else if l.Nil? then Updated(true, RebalanceAfterRemove(rt))
      else if rt.Nil? then Updated(true, RebalanceAfterRemove(l))
      else
        var s := MinNode(rt).value;
        Updated(true, RebalanceAfterRemove(Node(s, h, l, RemoveFixed(rt, s).tree)))
  }

  /** On a search tree the fixed removal has the set semantics of
      `remove`: true exactly when the value was present, which it then
      takes out, keeping search-tree order. */
  lemma {:induction false} RemoveFixedBst(t: Tree, v: int)
    requires Bst(t)
    ensures RemoveFixed(t, v).changed <==> v in Elements(t)
    ensures Elements(RemoveFixed(t, v).tree) == Elements(t) - {v}
    ensures Bst(RemoveFixed(t, v).tree)
    ensures Size(RemoveFixed(t, v).tree) == |Elements(t) - {v}|
  {
    RemoveFixedOrder(t, v);
    BstSizeIsCardinality(RemoveFixed(t, v).tree);
  }

  lemma {:induction false} RemoveFixedOrder(t: Tree, v: int)
    requires Bst(t)
    ensures RemoveFixed(t, v).changed <==> v in Elements(t)
    ensures Elements(RemoveFixed(t, v).tree) == Elements(t) - {v}
    ensures Bst(RemoveFixed(t, v).tree)
  {
    match t
    case Nil =>
    case Node(x, h, l, rt) =>
      if x < v {
        RemoveFixedOrder(rt, v);
        ReplaceRight(x, h, l, rt, v, RemoveFixed(rt, v).tree);
      } else if v < x {
        RemoveFixedOrder(l, v);
        ReplaceLeft(x, h, l, rt, v, RemoveFixed(l, v).tree);
      } else if l.Node? && rt.Node? {
        var s := MinNode(rt).value;
        RemoveFixedOrder(rt, s);
        ReplaceBySuccessor(x, h, l, rt, RemoveFixed(rt, s).tree);
      }
  }

  /** A node with two children whose value is replaced by its in-order
      successor, taken out of the right subtree, loses exactly its old value
      and remains a search tree. */
  lemma ReplaceBySuccessor(x: int, h: int, l: Tree, rt: Tree, rt': Tree)
    requires Bst(Node(x, h, l, rt)) && l.Node? && rt.Node?
    requires Elements(rt') == Elements(rt) - {MinNode(rt).value} && Bst(rt')
    ensures Elements(Node(MinNode(rt).value, h, l, rt')) == Elements(Node(x, h, l, rt)) - {x}
    ensures Bst(Node(MinNode(rt).value, h, l, rt'))
  {
    var s := MinNode(rt).value;
    assert Bst(l) && Bst(rt) && x < s;
    assert x !in Elements(l) && x !in Elements(rt);
    assert forall y :: y in Elements(rt') ==> s < y;
    assert forall y :: y in Elements(l) ==> y < s;
  }

  /** The removal step at a node whose children each lost at most one
      level leaves correct heights and balance, and the subtree loses at
      most one level. */
  lemma RemoveStepBounds(x: int, h: int, l: Tree, r: Tree, l': Tree, r': Tree)
    requires HeightsCorrect(l') && Balanced(l') && HeightsCorrect(r') && Balanced(r')
    requires -1 <= Height(l) - Height(r) <= 1
    requires Height(l) - 1 <= Height(l') <= Height(l)
    requires Height(r) - 1 <= Height(r') <= Height(r)
    ensures var t' := RebalanceAfterRemove(Node(x, h, l', r'));
            var h0 := 1 + Larger(Height(l), Height(r));
            HeightsCorrect(t') && Balanced(t') && h0 - 1 <= Height(t') <= h0
  {
    RemoveStepRestoresBalance(Node(x, h, l', r'));
    LargerWithin(Height(l), Height(r), Height(l'), Height(r'));
  }

  /** Lowering each of two numbers at most one apart by at most one lowers
      the larger of them by at most one, and when the lowered numbers end
      two apart the larger one did not move. */
  lemma LargerWithin(a: int, b: int, a': int, b': int)
    requires -1 <= a - b <= 1
    requires a - 1 <= a' <= a && b - 1 <= b' <= b
    ensures -2 <= a' - b' <= 2
    ensures Larger(a, b) - 1 <= Larger(a', b') <= Larger(a, b)
    ensures (a' - b' == 2 || b' - a' == 2) ==> Larger(a', b') == Larger(a, b)
  {
  }

  /** The fixed removal keeps height fields correct and balance factors in
      [-1, 1], and lowers the tree by at most one level. */
  lemma {:induction false} RemoveFixedKeepsBalance(t: Tree, v: int)
    requires HeightsCorrect(t) && Balanced(t)
    ensures HeightsCorrect(RemoveFixed(t, v).tree) && Balanced(RemoveFixed(t, v).tree)
    ensures Height(t) - 1 <= Height(RemoveFixed(t, v).tree) <= Height(t)
    decreases t
  {
    match t
    case Nil =>
    case Node(x, h, l, rt) =>
      HeightNonNegative(l);
      HeightNonNegative(rt);
      if x < v {
        RemoveFixedKeepsBalance(rt, v);
        RemoveStepBounds(x, h, l, rt, l, RemoveFixed(rt, v).tree);
      } else if v < x {
        RemoveFixedKeepsBalance(l, v);
        RemoveStepBounds(x, h, l, rt, RemoveFixed(l, v).tree, rt);
      } else if l.Nil? && rt.Nil? {
      } else if l.Nil? {
        RemoveStepRestoresBalance(rt);
      } else if rt.Nil? {
        RemoveStepRestoresBalance(l);
      } else {
        var s := MinNode(rt).value;
        RemoveFixedKeepsBalance(rt, s);
        RemoveStepBounds(s, h, l, rt, l, RemoveFixed(rt, s).tree);
      }
  }

  /** The fixed removal maps AVL trees to AVL trees. */
  lemma RemoveFixedKeepsAvl(t: Tree, v: int)
    requires Avl(t)
    ensures Avl(RemoveFixed(t, v).tree)
    ensures TreeHeight(RemoveFixed(t, v).tree) == Depth(RemoveFixed(t, v).tree)
  {
    RemoveFixedBst(t, v);
    RemoveFixedKeepsBalance(t, v);
  }

  /** With the fixed removal the tree still meets the container's removal
      contract. */
  lemma RemoveFixedMeetsContract(t: Tree, v: int)
    requires Bst(t)
    ensures RemoveContract(Elements(t), v, RemoveFixed(t, v).changed, Elements(RemoveFixed(t, v).tree))
  {
    RemoveFixedBst(t, v);
  }
}
