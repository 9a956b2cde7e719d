/** Height bookkeeping and balance of the AVL tree engine: the rotations
    repair a subtree that is two levels too tall on one side, `insert`
    keeps every height field correct and every balance factor in [-1, 1],
    the removal rebalancing step restores balance whichever way the tie is
    broken, and a balanced tree has an integer height bound. */
module AvlBalance {
  import opened AvlTree

  /** Stored heights are never negative once they are correct. */
  lemma HeightNonNegative(t: Tree)
    requires HeightsCorrect(t)
    ensures Height(t) >= 0
  {
    HeightIsDepth(t);
  }

  // ---------------------------------------------------------------------
  // Rotations repair a two-level excess

  /** Left-left shape: a single right rotation balances a node whose left
      child is two levels taller than its right child and does not lean
      right.  The result is as tall as that left child, one level more
      when the left child was level. */
  lemma {:induction false} SingleRightRotation(n: Tree)
    requires n.Node? && n.left.Node?
    requires HeightsCorrect(n.left) && Balanced(n.left)
    requires HeightsCorrect(n.right) && Balanced(n.right)
    requires Height(n.left) == Height(n.right) + 2
    requires GetBalance(n.left) >= 0
    ensures HeightsCorrect(RightRotate(n)) && Balanced(RightRotate(n))
    ensures Height(RightRotate(n)) == Height(n.left) + (if GetBalance(n.left) == 0 then 1 else 0)
  {
    var l := n.left;
    HeightNonNegative(l.left);
    HeightNonNegative(l.right);
    HeightNonNegative(n.right);
    var demoted := UpdateHeight(Node(n.value, n.height, l.right, n.right));
    assert Balanced(demoted);
    var r := RightRotate(n);
    assert r == UpdateHeight(Node(l.value, l.height, l.left, demoted));
    assert Balanced(r);
  }

  /** Right-right shape: the mirror image of `SingleRightRotation`. */
  lemma {:induction false} SingleLeftRotation(n: Tree)
    requires n.Node? && n.right.Node?
    requires HeightsCorrect(n.left) && Balanced(n.left)
    requires HeightsCorrect(n.right) && Balanced(n.right)
    requires Height(n.right) == Height(n.left) + 2
    requires GetBalance(n.right) <= 0
    ensures HeightsCorrect(LeftRotate(n)) && Balanced(LeftRotate(n))
    ensures Height(LeftRotate(n)) == Height(n.right) + (if GetBalance(n.right) == 0 then 1 else 0)
  {
    var rt := n.right;
    HeightNonNegative(rt.left);
    HeightNonNegative(rt.right);
    HeightNonNegative(n.left);
    var demoted := UpdateHeight(Node(n.value, n.height, n.left, rt.left));
    assert Balanced(demoted);
    var r := LeftRotate(n);
    assert r == UpdateHeight(Node(rt.value, rt.height, demoted, rt.right));
    assert Balanced(r);
  }

  /** Left-right shape: rotating the left child left and then the node right
      balances a node whose left child is two levels taller and leans
      right; the result is as tall as that left child. */
  lemma {:induction false} DoubleRightRotation(n: Tree)
    requires n.Node? && n.left.Node?
    requires HeightsCorrect(n.left) && Balanced(n.left)
    requires HeightsCorrect(n.right) && Balanced(n.right)
    requires Height(n.left) == Height(n.right) + 2
    requires GetBalance(n.left) < 0
    ensures HeightsCorrect(RightRotate(n.(left := LeftRotate(n.left))))
    ensures Balanced(RightRotate(n.(left := LeftRotate(n.left))))
    ensures Height(RightRotate(n.(left := LeftRotate(n.left)))) == Height(n.left)
  {
    var l := n.left;
    var c := l.right;
    HeightNonNegative(l.left);
    HeightNonNegative(c);
    HeightNonNegative(n.right);
    assert c.Node?;
    HeightNonNegative(c.left);
    HeightNonNegative(c.right);
    var lowLeft := UpdateHeight(Node(l.value, l.height, l.left, c.left));
    var l' := LeftRotate(l);
    assert l' == UpdateHeight(Node(c.value, c.height, lowLeft, c.right));
    assert Balanced(lowLeft);
    var m := n.(left := l');
    var lowRight := UpdateHeight(Node(m.value, m.height, c.right, m.right));
    assert Balanced(lowRight);
    var r := RightRotate(m);
    assert r == UpdateHeight(Node(c.value, l'.height, lowLeft, lowRight));
    assert Balanced(r);
  }

  /** Right-left shape: the mirror image of `DoubleRightRotation`. */
  lemma {:induction false} DoubleLeftRotation(n: Tree)
    requires n.Node? && n.right.Node?
    requires HeightsCorrect(n.left) && Balanced(n.left)
    requires HeightsCorrect(n.right) && Balanced(n.right)
    requires Height(n.right) == Height(n.left) + 2
    requires GetBalance(n.right) > 0
    ensures HeightsCorrect(LeftRotate(n.(right := RightRotate(n.right))))
    ensures Balanced(LeftRotate(n.(right := RightRotate(n.right))))
    ensures Height(LeftRotate(n.(right := RightRotate(n.right)))) == Height(n.right)
  {
    var rt := n.right;
    var c := rt.left;
    HeightNonNegative(rt.right);
    HeightNonNegative(c);
    HeightNonNegative(n.left);
    assert c.Node?;
    HeightNonNegative(c.left);
    HeightNonNegative(c.right);
    var lowRight := UpdateHeight(Node(rt.value, rt.height, c.right, rt.right));
    var rt' := RightRotate(rt);
    assert rt' == UpdateHeight(Node(c.value, c.height, c.left, lowRight));
    assert Balanced(lowRight);
    var m := n.(right := rt');
    var lowLeft := UpdateHeight(Node(m.value, m.height, m.left, c.left));
    assert Balanced(lowLeft);
    var r := LeftRotate(m);
    assert r == UpdateHeight(Node(c.value, rt'.height, lowLeft, lowRight));
    assert Balanced(r);
  }

  // ---------------------------------------------------------------------
  // Insertion keeps the tree balanced

  /** What `insert` leaves behind on a balanced tree with correct heights:
      again correct heights and balance factors in [-1, 1]; the subtree
      grows by at most one level; and when it does grow, no rotation ran at
      its root, which leans towards the side the value went down. */
  ghost predicate InsertOutcome(t: Tree, v: int, r: Updated)
  {
    && HeightsCorrect(r.tree) && Balanced(r.tree)
    && (Height(r.tree) == Height(t) || Height(r.tree) == Height(t) + 1)
    && (t.Node? && Height(r.tree) == Height(t) + 1 ==>
          && r.tree.Node? && r.tree.value == t.value
          && (v < t.value ==> GetBalance(r.tree) == 1)
          && (t.value < v ==> GetBalance(r.tree) == -1))
  }

  /** One bottom-up step of `insert` after the value went into the left
      child: the four-way rotation choice picks the left-left or left-right
      repair exactly when the left child became two levels too tall. */
  lemma {:induction false} InsertLeftStep(t: Tree, v: int)
    requires t.Node? && v < t.value
    requires HeightsCorrect(t) && Balanced(t)
    requires Insert(t.left, v).changed
    requires InsertOutcome(t.left, v, Insert(t.left, v))
    ensures InsertOutcome(t, v, Insert(t, v))
  {
    var sub := Insert(t.left, v);
    var l' := sub.tree;
    var n := Node(t.value, t.height, l', t.right);
    assert Insert(t, v).tree == RebalanceAfterInsert(n, v, false);
    HeightNonNegative(t.left);
    HeightNonNegative(t.right);
    var node := UpdateHeight(n);
    if Height(l') - Height(t.right) > 1 {
      assert t.left.Node?;
      assert v != t.left.value;
      if t.left.value < v {
        assert GetBalance(node.left) < 0;
        DoubleRightRotation(node);
      } else {
        assert GetBalance(node.left) >= 0;
        SingleRightRotation(node);
      }
    } else {
      assert RebalanceAfterInsert(n, v, false) == node;
    }
  }

  /** The mirror image of `InsertLeftStep`. */
  lemma {:induction false} InsertRightStep(t: Tree, v: int)
    requires t.Node? && t.value < v
    requires HeightsCorrect(t) && Balanced(t)
    requires Insert(t.right, v).changed
    requires InsertOutcome(t.right, v, Insert(t.right, v))
    ensures InsertOutcome(t, v, Insert(t, v))
  {
    var sub := Insert(t.right, v);
    var r' := sub.tree;
    var n := Node(t.value, t.height, t.left, r');
    assert Insert(t, v).tree == RebalanceAfterInsert(n, v, true);
    HeightNonNegative(t.left);
    HeightNonNegative(t.right);
    var node := UpdateHeight(n);
    if Height(t.left) - Height(r') < -1 {
      assert t.right.Node?;
      assert v != t.right.value;
      if t.right.value < v {
        assert GetBalance(node.right) <= 0;
        SingleLeftRotation(node);
      } else {
        assert GetBalance(node.right) > 0;
        DoubleLeftRotation(node);
      }
    } else {
      assert RebalanceAfterInsert(n, v, true) == node;
    }
  }

  /** `insert` on a balanced tree with correct height fields yields a
      balanced tree with correct height fields, at most one level taller. */
  lemma {:induction false} InsertKeepsBalance(t: Tree, v: int)
    requires HeightsCorrect(t) && Balanced(t)
    ensures InsertOutcome(t, v, Insert(t, v))
  {
    match t
    case Nil =>
    case Node(x, _, l, rt) =>
      if v == x {
      } else if x < v {
        InsertKeepsBalance(rt, v);
        if Insert(rt, v).changed {
          InsertRightStep(t, v);
        }
      } else {
        InsertKeepsBalance(l, v);
        if Insert(l, v).changed {
          InsertLeftStep(t, v);
        }
      }
  }

  /** `insert` maps AVL trees to AVL trees. */
  lemma InsertKeepsAvl(t: Tree, v: int)
    requires Avl(t)
    ensures Avl(Insert(t, v).tree)
  {
    InsertBst(t, v);
    InsertKeepsBalance(t, v);
  }

  // ---------------------------------------------------------------------
  // The removal rebalancing step

  /** The rebalancing step of `remove` repairs a node whose children are
      balanced with correct heights and differ by at most two levels: the
      single rotation chosen for a level heavy child (balance exactly 0) is
      enough, as is the double rotation for a child leaning the other way.
      The subtree ends at most one level lower than before the step. */
  lemma RemoveStepRestoresBalance(n: Tree)
    requires n.Node?
    requires HeightsCorrect(n.left) && Balanced(n.left)
    requires HeightsCorrect(n.right) && Balanced(n.right)
    requires -2 <= Height(n.left) - Height(n.right) <= 2
    ensures HeightsCorrect(RebalanceAfterRemove(n)) && Balanced(RebalanceAfterRemove(n))
    ensures var h := 1 + Larger(Height(n.left), Height(n.right));
            h - 1 <= Height(RebalanceAfterRemove(n)) <= h
    ensures -1 <= Height(n.left) - Height(n.right) <= 1 ==>
              Height(RebalanceAfterRemove(n)) == 1 + Larger(Height(n.left), Height(n.right))
  {
    HeightNonNegative(n.left);
    HeightNonNegative(n.right);
    var node := UpdateHeight(n);
    var balance := GetBalance(node);
    if balance > 1 {
      if GetBalance(node.left) >= 0 {
        SingleRightRotation(node);
      } else {
        DoubleRightRotation(node);
      }
    } else if balance < -1 {
      if GetBalance(node.right) <= 0 {
        SingleLeftRotation(node);
      } else {
        DoubleLeftRotation(node);
      }
    }
  }

  // ---------------------------------------------------------------------
  // An integer height bound

  /** The fewest nodes a balanced tree of height `h` can have. */
  function MinNodes(h: nat): nat
  {
    if h == 0 then 0 else if h == 1 then 1 else 1 + MinNodes(h - 1) + MinNodes(h - 2)
  }

  lemma {:induction false} MinNodesMonotone(a: nat, b: nat)
    requires a <= b
    ensures MinNodes(a) <= MinNodes(b)
    decreases b
  {
    if a < b {
      MinNodesMonotone(a, b - 1);
    }
  }

  /** A balanced tree with correct heights has at least `MinNodes` of its
      height many nodes. */
  lemma {:induction false} BalancedHasMinNodes(t: Tree)
    requires HeightsCorrect(t) && Balanced(t)
    ensures Height(t) >= 0 && Size(t) >= MinNodes(Height(t))
  {
    match t
    case Nil =>
    case Node(_, h, l, r) =>
      BalancedHasMinNodes(l);
      BalancedHasMinNodes(r);
      assert Size(t) == Size(l) + Size(r) + 1;
      if h >= 2 {
        if Height(l) >= Height(r) {
          MinNodesMonotone(h - 2, Height(r));
        } else {
          MinNodesMonotone(h - 2, Height(l));
        }
      }
  }

  function Pow2(k: nat): nat
  {
    if k == 0 then 1 else 2 * Pow2(k - 1)
  }

  lemma {:induction false} MinNodesExponential(h: nat)
    ensures Pow2(h / 2) <= MinNodes(h) + 1
  {
    if h >= 2 {
      MinNodesExponential(h - 2);
      MinNodesMonotone(h - 2, h - 1);
      assert (h - 2) / 2 == h / 2 - 1;
    }
  }

  /** The height of a balanced tree with correct heights is logarithmic in
      its size: 2 to the power of half its height is at most size + 1. */
  lemma HeightIsLogarithmic(t: Tree)
    requires HeightsCorrect(t) && Balanced(t)
    ensures Height(t) >= 0 && Pow2(Height(t) / 2) <= Size(t) + 1
  {
    BalancedHasMinNodes(t);
    MinNodesExponential(Height(t));
  }
}
