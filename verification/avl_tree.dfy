/** The AVL tree engine (`AVLTree` in avl_tree.h / avl_tree.hpp) as an
    immutable algebraic tree.  A `Tree` value stands for the subtree a
    `Node*` slot points at; every routine that takes a `Node *&` slot and
    re-points it becomes a function from the old subtree to the new one.
    Values are `int` ordered by `<`, the `std::less<int>` instantiation the
    library checks itself against, so comparator equivalence is equality.

    This module holds the structure, the operations and their set and
    search-tree properties; height and balance invariants are proved in
    `AvlBalance`. */
module AvlTree {
  import opened Container

  /** `Node { value, height, left, right }`; `Nil` is a null link. */
  datatype Tree = Nil | Node(value: int, height: int, left: Tree, right: Tree)

  /** What a modifier returns (`bool`) together with the subtree it leaves
      in the slot it was given. */
  datatype Updated = Updated(changed: bool, tree: Tree)

  // ---------------------------------------------------------------------
  // Views of a tree

  function Elements(t: Tree): set<int>
  {
    match t
    case Nil => {}
    case Node(x, _, l, r) => Elements(l) + {x} + Elements(r)
  }

  function InOrder(t: Tree): (s: seq<int>)
    ensures |s| == Size(t)
  {
    match t
    case Nil => []
    case Node(x, _, l, r) => InOrder(l) + [x] + InOrder(r)
  }

  /** Number of nodes, counted as `size(Node*)` does. */
  function Size(t: Tree): (n: nat)
    ensures n == 0 <==> t.Nil?
  {
    match t
    case Nil => 0
    case Node(_, _, l, r) => Size(l) + Size(r) + 1
  }

  /** `std::max`, which returns its first argument unless it is smaller. */
  function Larger(a: int, b: int): int
  {
    if a < b then b else a
  }

  /** The stored height of a slot: the node's `height` field, 0 for null. */
  function Height(t: Tree): int
  {
    if t.Nil? then 0 else t.height
  }

  /** The actual height of a subtree, independent of the stored fields. */
  function Depth(t: Tree): nat
  {
    match t
    case Nil => 0
    case Node(_, _, l, r) => 1 + Larger(Depth(l), Depth(r))
  }

  /** Search-tree order: left subtree below, right subtree above each node. */
  ghost predicate Bst(t: Tree)
  {
    match t
    case Nil => true
    case Node(x, _, l, r) =>
      && Bst(l) && Bst(r)
      && (forall y :: y in Elements(l) ==> y < x)
      && (forall y :: y in Elements(r) ==> x < y)
  }

  /** Every stored height is one more than the larger child height. */
  ghost predicate HeightsCorrect(t: Tree)
  {
    match t
    case Nil => true
    case Node(_, h, l, r) =>
      h == 1 + Larger(Height(l), Height(r)) && HeightsCorrect(l) && HeightsCorrect(r)
  }

  /** Every node's balance factor, from stored heights, lies in [-1, 1]. */
  ghost predicate Balanced(t: Tree)
  {
    match t
    case Nil => true
    case Node(_, _, l, r) =>
      -1 <= Height(l) - Height(r) <= 1 && Balanced(l) && Balanced(r)
  }

  ghost predicate Avl(t: Tree)
  {
    Bst(t) && HeightsCorrect(t) && Balanced(t)
  }

  ghost predicate StrictlyAscending(s: seq<int>)
  {
    forall i, j :: 0 <= i < j < |s| ==> s[i] < s[j]
  }

  // ---------------------------------------------------------------------
  // Facts about the views

  /** Correct height fields store the actual height. */
  lemma {:induction false} HeightIsDepth(t: Tree)
    ensures HeightsCorrect(t) ==> Height(t) == Depth(t)
  {
    match t
    case Nil =>
    case Node(_, _, l, r) =>
      HeightIsDepth(l);
      HeightIsDepth(r);
  }

  lemma {:induction false} InOrderHasElements(t: Tree)
    ensures forall y :: y in InOrder(t) <==> y in Elements(t)
    ensures |InOrder(t)| == Size(t)
  {
    match t
    case Nil =>
    case Node(_, _, l, r) =>
      InOrderHasElements(l);
      InOrderHasElements(r);
  }

  /** In a search tree the node count is the number of distinct values. */
  lemma {:induction false} BstSizeIsCardinality(t: Tree)
    requires Bst(t)
    ensures Size(t) == |Elements(t)|
  {
    match t
    case Nil =>
    case Node(x, _, l, r) =>
      BstSizeIsCardinality(l);
      BstSizeIsCardinality(r);
      SeparatedCardinality(Elements(l), x, Elements(r));
  }

  /** Values all below `x` and values all above it are distinct from each
      other and from `x`. */
  lemma SeparatedCardinality(a: set<int>, x: int, b: set<int>)
    requires forall y :: y in a ==> y < x
    requires forall y :: y in b ==> x < y
    ensures |a + {x} + b| == |a| + |b| + 1
  {
    assert x !in a;
    assert |a + {x}| == |a| + 1;
    assert forall y :: y in a + {x} ==> y !in b;
    assert (a + {x}) !! b;
  }

  /** In a search tree a value below the root can only be in the left
      subtree, and one above the root only in the right subtree. */
  lemma BstDescent(t: Tree, v: int)
    ensures t.Node? && Bst(t) && v < t.value ==> (v in Elements(t) <==> v in Elements(t.left))
    ensures t.Node? && Bst(t) && t.value < v ==> (v in Elements(t) <==> v in Elements(t.right))
  {
    if t.Node? && Bst(t) {
      assert v in Elements(t.left) ==> v < t.value;
      assert v in Elements(t.right) ==> t.value < v;
    }
  }

  lemma AscendingConcat(a: seq<int>, x: int, b: seq<int>)
    requires StrictlyAscending(a) && StrictlyAscending(b)
    requires forall i :: 0 <= i < |a| ==> a[i] < x
    requires forall i :: 0 <= i < |b| ==> x < b[i]
    ensures StrictlyAscending(a + [x] + b)
  {
    var s := a + [x] + b;
    forall i, j | 0 <= i < j < |s| ensures s[i] < s[j] {
      if j < |a| {
      } else if i < |a| {
        assert s[i] < x;
        if j > |a| { assert s[j] == b[j - |a| - 1]; }
      } else if i == |a| {
        assert s[j] == b[j - |a| - 1];
      } else {
        assert s[i] == b[i - |a| - 1] && s[j] == b[j - |a| - 1];
      }
    }
  }

  /** Search-tree order is exactly an ascending in-order sequence. */
  lemma {:induction false} BstIffAscending(t: Tree)
    ensures Bst(t) <==> StrictlyAscending(InOrder(t))
  {
    match t
    case Nil =>
    case Node(x, _, l, r) =>
      BstIffAscending(l);
      BstIffAscending(r);
      InOrderHasElements(l);
      InOrderHasElements(r);
      var a, b := InOrder(l), InOrder(r);
      assert InOrder(t) == a + [x] + b;
      if Bst(t) {
        forall i | 0 <= i < |a| ensures a[i] < x { assert a[i] in Elements(l); }
        forall i | 0 <= i < |b| ensures x < b[i] { assert b[i] in Elements(r); }
        AscendingConcat(a, x, b);
      }
      if StrictlyAscending(InOrder(t)) {
        AscendingSplit(a, x, b);
        forall y | y in Elements(l) ensures y < x {
          var i :| 0 <= i < |a| && a[i] == y;
        }
        forall y | y in Elements(r) ensures x < y {
          var i :| 0 <= i < |b| && b[i] == y;
        }
      }
  }

  /** The parts of a strictly ascending `a + [x] + b` are strictly
      ascending, with `a` below `x` and `b` above it. */
  lemma AscendingSplit(a: seq<int>, x: int, b: seq<int>)
    requires StrictlyAscending(a + [x] + b)
    ensures StrictlyAscending(a) && StrictlyAscending(b)
    ensures forall i :: 0 <= i < |a| ==> a[i] < x
    ensures forall i :: 0 <= i < |b| ==> x < b[i]
  {
    var s := a + [x] + b;
    forall i, j | 0 <= i < j < |a| ensures a[i] < a[j] { assert s[i] == a[i] && s[j] == a[j]; }
    forall i, j | 0 <= i < j < |b| ensures b[i] < b[j] {
      assert s[|a| + 1 + i] == b[i] && s[|a| + 1 + j] == b[j];
    }
    forall i | 0 <= i < |a| ensures a[i] < x { assert s[i] == a[i] && s[|a|] == x; }
    forall i | 0 <= i < |b| ensures x < b[i] { assert s[|a| + 1 + i] == b[i] && s[|a|] == x; }
  }

  // ---------------------------------------------------------------------
  // Construction and node primitives

  /** `AVLTree()`: the head is null. */
  function EmptyTree(): (t: Tree)
    ensures Elements(t) == {} && Size(t) == 0 && Height(t) == 0 && Avl(t)
  {
    Nil
  }

  /** `Node(T&&)`: a fresh node holds the value, has height 1 and no children. */
  function NewNode(v: int): (n: Tree)
    ensures n.Node? && n.value == v && n.left.Nil? && n.right.Nil?
    ensures Elements(n) == {v} && InOrder(n) == [v] && Size(n) == 1
    ensures Height(n) == Depth(n) == 1 && Avl(n)
  {
    Node(v, 1, Nil, Nil)
  }

  /** `updateHeight`: the node's height becomes one more than the taller
      child's stored height, an absent child counting 0. */
  function UpdateHeight(n: Tree): (r: Tree)
    requires n.Node?
    ensures r.Node? && r.value == n.value && r.left == n.left && r.right == n.right
    ensures InOrder(r) == InOrder(n) && Elements(r) == Elements(n) && Size(r) == Size(n)
    ensures Bst(r) == Bst(n) && Balanced(r) == Balanced(n)
    ensures HeightsCorrect(n.left) && HeightsCorrect(n.right) ==>
              HeightsCorrect(r) && Height(r) == Depth(r)
  {
    HeightIsDepth(n.left);
    HeightIsDepth(n.right);
    Node(n.value, 1 + Larger(Height(n.left), Height(n.right)), n.left, n.right)
  }

  /** `getBalance`: stored left height minus stored right height. */
  function GetBalance(n: Tree): (b: int)
    requires n.Node?
    ensures HeightsCorrect(n) ==> b == Depth(n.left) - Depth(n.right)
  {
    HeightIsDepth(n.left);
    HeightIsDepth(n.right);
    Height(n.left) - Height(n.right)
  }

  /** Both shapes a rotation moves between are search trees or neither is. */
  lemma RotationKeepsOrder(x: int, y: int, a: Tree, b: Tree, c: Tree,
                           h1: int, h2: int, h3: int, h4: int)
    ensures Bst(Node(x, h1, a, Node(y, h2, b, c))) <==> Bst(Node(y, h3, Node(x, h4, a, b), c))
  {
    var low := Node(x, h1, a, Node(y, h2, b, c));
    var high := Node(y, h3, Node(x, h4, a, b), c);
    var right := Node(y, h2, b, c);
    var left := Node(x, h4, a, b);
    assert Elements(right) == Elements(b) + {y} + Elements(c);
    assert Elements(left) == Elements(a) + {x} + Elements(b);
    if Bst(low) {
      assert Bst(right);
      assert x < y;
      assert Bst(left);
    }
    if Bst(high) {
      assert Bst(left);
      assert x < y;
      assert Bst(right);
    }
  }

  /** `leftRotate`: the right child becomes the subtree root; a no-op when the
      slot or its right child is null.  The demoted node's height is
      recomputed before the new root's. */
  function LeftRotate(n: Tree): (r: Tree)
    ensures InOrder(r) == InOrder(n) && Elements(r) == Elements(n) && Size(r) == Size(n)
    ensures Bst(n) ==> Bst(r)
    ensures n.Nil? || n.right.Nil? ==> r == n
    ensures n.Node? ==> r.Node?
    ensures n.Node? && n.right.Node? && HeightsCorrect(n.left) && HeightsCorrect(n.right) ==>
              HeightsCorrect(r)
  {
    if n.Nil? || n.right.Nil? then n
    else
      var pivot := n.right;
      var demoted := UpdateHeight(Node(n.value, n.height, n.left, pivot.left));
      var r := UpdateHeight(Node(pivot.value, pivot.height, demoted, pivot.right));
      RotationKeepsOrder(n.value, pivot.value, n.left, pivot.left, pivot.right,
                         n.height, pivot.height, r.height, demoted.height);
      r
  }

  /** `rightRotate`: the mirror image of `LeftRotate`. */
  function RightRotate(n: Tree): (r: Tree)
    ensures InOrder(r) == InOrder(n) && Elements(r) == Elements(n) && Size(r) == Size(n)
    ensures Bst(n) ==> Bst(r)
    ensures n.Nil? || n.left.Nil? ==> r == n
    ensures n.Node? ==> r.Node?
    ensures n.Node? && n.left.Node? && HeightsCorrect(n.left) && HeightsCorrect(n.right) ==>
              HeightsCorrect(r)
  {
    if n.Nil? || n.left.Nil? then n
    else
      var pivot := n.left;
      var demoted := UpdateHeight(Node(n.value, n.height, pivot.right, n.right));
      var r := UpdateHeight(Node(pivot.value, pivot.height, pivot.left, demoted));
      RotationKeepsOrder(pivot.value, n.value, pivot.left, pivot.right, n.right,
                         r.height, demoted.height, n.height, pivot.height);
      r
  }

  // ---------------------------------------------------------------------
  // Insertion

  /** The bottom-up step of `insert(Node*&, T&&)` after the recursive call
      succeeded: recompute the height, then pick among the four rotation
      shapes.  `valueBigger` records the side the value went down; the
      shape test compares the value against the child on that side. */
  function RebalanceAfterInsert(n: Tree, v: int, valueBigger: bool): (r: Tree)
    requires n.Node?
    ensures r.Node?
    ensures InOrder(r) == InOrder(n) && Elements(r) == Elements(n) && Size(r) == Size(n)
    ensures Bst(n) ==> Bst(r)
  {
    var node := UpdateHeight(n);
    var balance := GetBalance(node);
    var subTreeRight :=
      (valueBigger && node.right.Node? && node.right.value < v) ||
      (!valueBigger && node.left.Node? && node.left.value < v);
    if balance > 1 && !subTreeRight then
      RightRotate(node)
    else if balance > 1 && subTreeRight then
      ChildrenReplaced(node, LeftRotate(node.left), node.right);
      RightRotate(node.(left := LeftRotate(node.left)))
    else if balance < -1 && subTreeRight then
      LeftRotate(node)
    else if balance < -1 && !subTreeRight then
      ChildrenReplaced(node, node.left, RightRotate(node.right));
      LeftRotate(node.(right := RightRotate(node.right)))
    else
      node
  }

  /** Children swapped for subtrees with the same in-order sequence, the
      same values and the same order leave the node's views unchanged. */
  lemma ChildrenReplaced(n: Tree, l: Tree, r: Tree)
    requires n.Node?
    requires InOrder(l) == InOrder(n.left) && Elements(l) == Elements(n.left) && Size(l) == Size(n.left)
    requires InOrder(r) == InOrder(n.right) && Elements(r) == Elements(n.right) && Size(r) == Size(n.right)
    requires Bst(n.left) ==> Bst(l)
    requires Bst(n.right) ==> Bst(r)
    ensures var m := Node(n.value, n.height, l, r);
            InOrder(m) == InOrder(n) && Elements(m) == Elements(n) && Size(m) == Size(n) && (Bst(n) ==> Bst(m))
  {
  }

  /** `insert(Node*&, T&&)`.  A null slot receives a new node.  An equal
      value stops the descent with `false`, and a `false` from below is
      passed straight up, so the subtree is returned untouched: no height
      is recomputed and no rotation runs.  Otherwise the value goes right
      exactly when the node's value is less than it. */
  function Insert(t: Tree, v: int): (r: Updated)
    ensures r.tree.Node?
    ensures r.changed ==> Elements(r.tree) == Elements(t) + {v} && Size(r.tree) == Size(t) + 1
    ensures !r.changed ==> r.tree == t && v in Elements(t)
    decreases t
  {
    match t
    case Nil => Updated(true, NewNode(v))
    case Node(x, h, l, rt) =>
      if v == x then Updated(false, t)
      else if x < v then
        var sub := Insert(rt, v);
        if !sub.changed then Updated(false, t)
        else Updated(true, RebalanceAfterInsert(Node(x, h, l, sub.tree), v, true))
      else
        var sub := Insert(l, v);
        if !sub.changed then Updated(false, t)
        else Updated(true, RebalanceAfterInsert(Node(x, h, sub.tree, rt), v, false))
  }

  /** Below a node with a different value, `insert` goes into the right
      subtree exactly when the node's value is less than the value: only
      that subtree's insertion decides the answer and gains the value. */
  lemma InsertDescends(t: Tree, v: int)
    requires t.Node? && t.value != v
    ensures t.value < v ==> (Insert(t, v).changed <==> Insert(t.right, v).changed)
    ensures t.value < v && Insert(t, v).changed ==>
              Elements(Insert(t, v).tree) == Elements(t.left) + {t.value} + Elements(Insert(t.right, v).tree)
    ensures v < t.value ==> (Insert(t, v).changed <==> Insert(t.left, v).changed)
    ensures v < t.value && Insert(t, v).changed ==>
              Elements(Insert(t, v).tree) == Elements(Insert(t.left, v).tree) + {t.value} + Elements(t.right)
  {
  }

  /** On a search tree, `insert` returns true exactly when the value was
      absent, and the result is again a search tree. */
  lemma {:induction false} InsertBst(t: Tree, v: int)
    requires Bst(t)
    ensures Insert(t, v).changed <==> v !in Elements(t)
    ensures Bst(Insert(t, v).tree)
  {
    match t
    case Nil =>
    case Node(x, h, l, rt) =>
      if v == x {
      } else if x < v {
        InsertBst(rt, v);
        var sub := Insert(rt, v);
        if sub.changed {
          assert v !in Elements(l);
          assert Bst(Node(x, h, l, sub.tree));
        }
      } else {
        InsertBst(l, v);
        var sub := Insert(l, v);
        if sub.changed {
          assert v !in Elements(rt);
          assert Bst(Node(x, h, sub.tree, rt));
        }
      }
  }

  // ---------------------------------------------------------------------
  // Removal

  /** `minNode`: the leftmost node of a non-empty subtree. */
  function MinNode(t: Tree): (m: Tree)
    requires t.Node?
    ensures m.Node? && m.left.Nil? && m.value in Elements(t)
    ensures t.left.Nil? ==> m == t
    ensures InOrder(t)[0] == m.value
    ensures Bst(t) ==> forall y :: y in Elements(t) ==> m.value <= y
  {
    if t.left.Nil? then t else MinNode(t.left)
  }

  /** `max(Node*)`: the value of the rightmost node of a non-empty subtree. */
  function MaxValue(t: Tree): (m: int)
    requires t.Node?
    ensures m in Elements(t)
    ensures InOrder(t)[|InOrder(t)| - 1] == m
    ensures Bst(t) ==> forall y :: y in Elements(t) ==> y <= m
  {
    if t.right.Nil? then t.value else MaxValue(t.right)
  }

  /** The successor unlinking inside `removeNode`: the parent of the
      leftmost node takes that node's right subtree as its left child.
      No height field on the way down is touched. */
  function DetachMin(t: Tree): (r: Tree)
    requires t.Node? && t.left.Node?
    ensures r.Node? && r.value == t.value && r.height == t.height && r.right == t.right
    ensures Size(r) + 1 == Size(t)
    ensures Elements(r) <= Elements(t)
  {
    if t.left.left.Nil? then
      assert Size(t.left) == Size(t.left.right) + 1;
      t.(left := t.left.right)
    else t.(left := DetachMin(t.left))
  }

  /** Unlinking the leftmost node takes exactly the first value out of the
      in-order sequence. */
  lemma {:induction false} DetachMinInOrder(t: Tree)
    requires t.Node? && t.left.Node?
    ensures [MinNode(t).value] + InOrder(DetachMin(t)) == InOrder(t)
    decreases t
  {
    var m := t.left;
    if m.left.Nil? {
      assert InOrder(m) == [m.value] + InOrder(m.right);
      Regroup([m.value], InOrder(m.right), [t.value], InOrder(t.right));
    } else {
      DetachMinInOrder(m);
      Regroup([MinNode(m).value], InOrder(DetachMin(m)), [t.value], InOrder(t.right));
    }
  }

  lemma Regroup(a: seq<int>, b: seq<int>, c: seq<int>, d: seq<int>)
    ensures a + (b + c + d) == (a + b) + c + d
  {
  }

  /** The right subtree once `removeNode` has unlinked the successor: the
      successor's own right subtree when the successor is the right child
      itself, and the subtree with its leftmost node detached otherwise. */
  function WithoutMin(t: Tree): (r: Tree)
    requires t.Node?
    ensures Size(r) + 1 == Size(t)
    ensures Elements(r) <= Elements(t)
  {
    if t.left.Nil? then t.right else DetachMin(t)
  }

  /** Unlinking the successor takes exactly its value out, first in the
      in-order sequence, and in a search tree leaves a search tree whose
      values all lie above it. */
  lemma WithoutMinSplits(t: Tree)
    requires t.Node?
    ensures [MinNode(t).value] + InOrder(WithoutMin(t)) == InOrder(t)
    ensures Elements(WithoutMin(t)) + {MinNode(t).value} == Elements(t)
    ensures Size(WithoutMin(t)) + 1 == Size(t)
    ensures Bst(t) ==> Bst(WithoutMin(t)) && forall y :: y in Elements(WithoutMin(t)) ==> MinNode(t).value < y
  {
    if t.left.Nil? {
      assert InOrder(t) == [t.value] + InOrder(t.right);
    } else {
      DetachMinInOrder(t);
      DetachMinElements(t);
      if Bst(t) {
        DetachMinBst(t);
      }
    }
  }

  lemma DetachMinElements(t: Tree)
    requires t.Node? && t.left.Node?
    requires [MinNode(t).value] + InOrder(DetachMin(t)) == InOrder(t)
    ensures Elements(DetachMin(t)) + {MinNode(t).value} == Elements(t)
  {
    var r, m := DetachMin(t), MinNode(t).value;
    var s, rest := InOrder(t), InOrder(r);
    InOrderHasElements(t);
    InOrderHasElements(r);
    forall y ensures y in Elements(r) + {m} <==> y in Elements(t) {
      assert y in s <==> y == m || y in rest;
    }
  }

  lemma DetachMinBst(t: Tree)
    requires t.Node? && t.left.Node? && Bst(t)
    requires [MinNode(t).value] + InOrder(DetachMin(t)) == InOrder(t)
    ensures Bst(DetachMin(t)) && forall y :: y in Elements(DetachMin(t)) ==> MinNode(t).value < y
  {
    var r, m := DetachMin(t), MinNode(t).value;
    var s, rest := InOrder(t), InOrder(r);
    assert rest == s[1..];
    InOrderHasElements(r);
    BstIffAscending(t);
    TailAscending(s);
    BstIffAscending(r);
    forall y | y in Elements(r) ensures m < y {
      var i :| 0 <= i < |rest| && rest[i] == y;
      assert s[0] < s[i + 1];
    }
  }

  /** The tail of a strictly ascending sequence is strictly ascending. */
  lemma TailAscending(s: seq<int>)
    requires StrictlyAscending(s) && |s| > 0
    ensures StrictlyAscending(s[1..])
  {
    forall i, j | 0 <= i < j < |s| - 1 ensures s[1..][i] < s[1..][j] {
      assert s[i + 1] < s[j + 1];
    }
  }

  /** `removeNode`: a node with two children is replaced by its in-order
      successor node, relinked in place.  The successor keeps its own stored
      height; it takes over the left subtree and, when it was deeper than
      the right child, the right subtree with the successor unlinked. */
  function RemoveNode(n: Tree): (r: Tree)
    requires n.Node? && n.left.Node? && n.right.Node?
    ensures r.Node? && r.left == n.left
    ensures InOrder(r) == InOrder(n.left) + InOrder(n.right)
    ensures Elements(r) == Elements(n.left) + Elements(n.right)
    ensures Size(r) + 1 == Size(n)
    ensures Bst(n) ==> Bst(r)
  {
    var successor := MinNode(n.right);
    var rest := WithoutMin(n.right);
    WithoutMinSplits(n.right);
    Node(successor.value, successor.height, n.left, rest)
  }

  /** The bottom-up step of `remove(Node*&, const T&)`: recompute the
      height, then rotate once when the heavy child leans the same way or
      is level (a balance of exactly 0 picks the single rotation), and
      twice when it leans the other way. */
  function RebalanceAfterRemove(n: Tree): (r: Tree)
    requires n.Node?
    ensures r.Node?
    ensures InOrder(r) == InOrder(n) && Elements(r) == Elements(n) && Size(r) == Size(n)
    ensures Bst(n) ==> Bst(r)
  {
    var leftExists := n.left.Node?;
    var rightExists := n.right.Node?;
    var node := UpdateHeight(n);
    var balance := GetBalance(node);
    if balance > 1 && leftExists && GetBalance(node.left) >= 0 then
      RightRotate(node)
    else if balance < -1 && rightExists && GetBalance(node.right) <= 0 then
      LeftRotate(node)
    else if balance > 1 && leftExists && GetBalance(node.left) < 0 then
      ChildrenReplaced(node, LeftRotate(node.left), node.right);
      RightRotate(node.(left := LeftRotate(node.left)))
    else if balance < -1 && rightExists && GetBalance(node.right) > 0 then
      ChildrenReplaced(node, node.left, RightRotate(node.right));
      LeftRotate(node.(right := RightRotate(node.right)))
    else
      node
  }

  /** `remove(Node*&, const T&)`.  A null slot or a `false` from below
      leaves the subtree untouched.  A leaf is dropped without any
      rebalancing at its own level; a node with one child is replaced by
      that child, and a node with two children by `removeNode`; the
      replacement is then rebalanced. */
  function Remove(t: Tree, v: int): (r: Updated)
    ensures !r.changed ==> r.tree == t
    ensures r.changed ==> v in Elements(t) && Size(r.tree) + 1 == Size(t)
    ensures r.changed ==> Elements(r.tree) <= Elements(t)
    decreases t
  {
    match t
    case Nil => Updated(false, Nil)
    case Node(x, h, l, rt) =>
      if x < v then
        var sub := Remove(rt, v);
        if !sub.changed then Updated(false, t)
        else Updated(true, RebalanceAfterRemove(Node(x, h, l, sub.tree)))
      else if v < x then
        var sub := Remove(l, v);
        if !sub.changed then Updated(false, t)
        else Updated(true, RebalanceAfterRemove(Node(x, h, sub.tree, rt)))
      else if l.Nil? && rt.Nil? then Updated(true, Nil)
      else if l.Nil? then Updated(true, RebalanceAfterRemove(rt))
      else if rt.Nil? then Updated(true, RebalanceAfterRemove(l))
      else Updated(true, RebalanceAfterRemove(RemoveNode(t)))
  }

  /** On a search tree, `remove` returns true exactly when the value was
      present, takes exactly that value out, and keeps search-tree order in
      the leaf, one-child and successor-relink cases alike. */
  lemma {:induction false} RemoveBst(t: Tree, v: int)
    requires Bst(t)
    ensures Remove(t, v).changed <==> v in Elements(t)
    ensures Elements(Remove(t, v).tree) == Elements(t) - {v}
    ensures Bst(Remove(t, v).tree)
  {
    match t
    case Nil =>
    case Node(x, h, l, rt) =>
      if x < v {
        RemoveBst(rt, v);
        ReplaceRight(x, h, l, rt, v, Remove(rt, v).tree);
      } else if v < x {
        RemoveBst(l, v);
        ReplaceLeft(x, h, l, rt, v, Remove(l, v).tree);
      } else {
        RemoveRootBst(t);
      }
  }

  /** Removing the root's own value takes exactly it out and keeps order. */
  lemma RemoveRootBst(t: Tree)
    requires Bst(t) && t.Node?
    ensures Elements(Remove(t, t.value).tree) == Elements(t) - {t.value}
    ensures Bst(Remove(t, t.value).tree)
  {
    var r := Remove(t, t.value).tree;
    if t.left.Nil? && t.right.Nil? {
      assert r == Nil;
    } else if t.left.Nil? {
      assert r == RebalanceAfterRemove(t.right);
      assert t.value !in Elements(t.right);
    } else if t.right.Nil? {
      assert r == RebalanceAfterRemove(t.left);
      assert t.value !in Elements(t.left);
    } else {
      RemoveRelinkBst(t);
    }
  }

  /** The successor-relink case of `RemoveRootBst`. */
  lemma RemoveRelinkBst(t: Tree)
    requires Bst(t) && t.Node? && t.left.Node? && t.right.Node?
    ensures Remove(t, t.value).tree == RebalanceAfterRemove(RemoveNode(t))
    ensures Elements(Remove(t, t.value).tree) == Elements(t) - {t.value}
    ensures Bst(Remove(t, t.value).tree)
  {
    assert t.value !in Elements(t.left) && t.value !in Elements(t.right);
  }

  /** Taking a value above the root out of the right subtree takes it out of
      the whole search tree. */
  lemma ReplaceRight(x: int, h: int, l: Tree, rt: Tree, v: int, rt': Tree)
    requires Bst(Node(x, h, l, rt)) && x < v
    requires Elements(rt') == Elements(rt) - {v} && Bst(rt')
    ensures Elements(Node(x, h, l, rt')) == Elements(Node(x, h, l, rt)) - {v}
    ensures v in Elements(Node(x, h, l, rt)) <==> v in Elements(rt)
    ensures Bst(Node(x, h, l, rt'))
  {
    assert v !in Elements(l);
  }

  /** The mirror image of `ReplaceRight`. */
  lemma ReplaceLeft(x: int, h: int, l: Tree, rt: Tree, v: int, l': Tree)
    requires Bst(Node(x, h, l, rt)) && v < x
    requires Elements(l') == Elements(l) - {v} && Bst(l')
    ensures Elements(Node(x, h, l', rt)) == Elements(Node(x, h, l, rt)) - {v}
    ensures v in Elements(Node(x, h, l, rt)) <==> v in Elements(l)
    ensures Bst(Node(x, h, l', rt))
  {
    assert v !in Elements(rt);
  }

  // ---------------------------------------------------------------------
  // Access and info

  /** `search(Node*, const T&)`: descend by the comparator; a hit is a value
      neither less nor greater than the key. */
  function Search(t: Tree, v: int): (r: Option<int>)
    ensures r.Some? ==> r.value == v && v in Elements(t)
    ensures Bst(t) && v in Elements(t) ==> r.Some?
  {
    match t
    case Nil => None
    case Node(x, _, l, rt) =>
      if !(x < v) && !(v < x) then Some(x)
      else if v < x then
        BstDescent(t, v);
        Search(l, v)
      else
        BstDescent(t, v);
        Search(rt, v)
  }

  /** `contains(Node*, const T&)`: the same descent, answering a boolean. */
  function Contains(t: Tree, v: int): (b: bool)
    ensures b ==> v in Elements(t)
    ensures Bst(t) && v in Elements(t) ==> b
  {
    match t
    case Nil => false
    case Node(x, _, l, rt) =>
      if !(x < v) && !(v < x) then true
      else if v < x then
        BstDescent(t, v);
        Contains(l, v)
      else
        BstDescent(t, v);
        Contains(rt, v)
  }

  /** `search` finds something exactly when `contains` answers true. */
  lemma {:induction false} SearchAgreesWithContains(t: Tree, v: int)
    ensures Search(t, v).Some? <==> Contains(t, v)
  {
    match t
    case Nil =>
    case Node(x, _, l, rt) =>
      if !(x < v) && !(v < x) {
      } else if v < x {
        SearchAgreesWithContains(l, v);
      } else {
        SearchAgreesWithContains(rt, v);
      }
  }

  /** `min()`: null on an empty tree, else the leftmost value. */
  function Min(t: Tree): (r: Option<int>)
    ensures r.None? <==> t.Nil?
    ensures r.Some? ==> r.value in Elements(t) && r.value == InOrder(t)[0]
    ensures Bst(t) && r.Some? ==> forall y :: y in Elements(t) ==> r.value <= y
  {
    if t.Nil? then None else Some(MinNode(t).value)
  }

  /** `max()`: null on an empty tree, else the rightmost value. */
  function Max(t: Tree): (r: Option<int>)
    ensures r.None? <==> t.Nil?
    ensures r.Some? ==> r.value in Elements(t) && r.value == InOrder(t)[|InOrder(t)| - 1]
    ensures Bst(t) && r.Some? ==> forall y :: y in Elements(t) ==> y <= r.value
  {
    if t.Nil? then None else Some(MaxValue(t))
  }

  /** `height()`: the root's stored height, 0 when the head is null. */
  function TreeHeight(t: Tree): (h: int)
    ensures t.Nil? ==> h == 0
    ensures HeightsCorrect(t) ==> h == Depth(t)
  {
    HeightIsDepth(t);
    if t.Nil? then 0 else t.height
  }

  /** `empty()`: the head is null, which is to say the tree holds nothing. */
  function IsEmpty(t: Tree): (b: bool)
    ensures b <==> Elements(t) == {}
    ensures b <==> Size(t) == 0
  {
    t.Nil?
  }

  /** `clear()`: every node is released and the head becomes null. */
  function Clear(t: Tree): (r: Tree)
    ensures Elements(r) == {} && Size(r) == 0 && TreeHeight(r) == 0 && IsEmpty(r)
  {
    Nil
  }

  // ---------------------------------------------------------------------
  // The shared container contract

  /** On a search tree, every operation of the tree meets the shared
      container contract over the tree's element set. */
  lemma MeetsContainerContract(t: Tree, v: int)
    requires Bst(t)
    ensures InsertContract(Elements(t), v, Insert(t, v).changed, Elements(Insert(t, v).tree))
    ensures RemoveContract(Elements(t), v, Remove(t, v).changed, Elements(Remove(t, v).tree))
    ensures SearchContract(Elements(t), v, Search(t, v))
    ensures ContainsContract(Elements(t), v, Contains(t, v))
    ensures MinContract(Elements(t), Min(t))
    ensures MaxContract(Elements(t), Max(t))
    ensures SizeContract(Elements(t), Size(t))
    ensures EmptyContract(Elements(t), IsEmpty(t))
    ensures ClearContract(Elements(Clear(t)))
  {
    InsertBst(t, v);
    RemoveBst(t, v);
    BstSizeIsCardinality(t);
  }
}
