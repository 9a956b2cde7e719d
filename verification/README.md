# mySet ordered containers in Dafny

This project models the two ordered-set engines of mySet and their shared capability set:

- the AVL tree `AVLTree` with its in-order iterator;
- the skip list `SkipList`;
- the `Dontainer` concept.

Both engines are modelled for the `int` instantiation under `std::less<int>`, which is the one the library checks itself against. Every property is proved against an abstract view:

| View | Meaning |
|---|---|
| element set | the values the container holds |
| in-order sequence | the tree's values in order |
| lanes | the skip list's express lanes |

Modules:

| Module | What it models |
|---|---|
| `Container` (container.dfy) | The `Dontainer` operations as predicates over the set of stored values. A returned `T*` is an `Option`, with `nullptr` as `None`. |
| `AvlTree` (avl_tree.dfy) | An immutable `Tree = Nil \| Node(value, height, left, right)`. Every routine that re-points a `Node *&` slot becomes a function from the old subtree to the new one. Covers insert with its four rotation shapes, remove with the leaf, one-child and successor-relink cases, the rotations, `updateHeight`, `getBalance`, search, contains, min, max, height, size, empty and clear. |
| `AvlBalance` (avl_balance.dfy) | Height-field correctness and balance: the rotations repair a two-level excess, insert keeps the AVL invariant, and one removal rebalancing step restores balance. It also gives an integer bound showing that height is logarithmic in size. |
| `AvlRemoveFix` (avl_remove_fix.dfy) | The stale height that removal of a two-child node leaves behind, and a corrected removal proved to keep the AVL invariant. |
| `AvlIterator` (avl_iterator.dfy) | The stack-of-nodes iterator, modelled as a sequence of subtrees with the top last. Its central view is `Remaining`: for each stack entry from the top down, the node's value followed by its right subtree in order. |
| `SkipLanes` (skip_lanes.dfy) | One express lane as a sorted sequence. Covers the position a descent stops at (`PrefixBelow`), linking a value in and unlinking one. |
| `SkipLists` (skiplist.dfy) | The skip list as `maxLevel` lanes plus `_currentLevel` and `_size`. Covers the descent recording `update[]`, level growth, splice, unlink, level shrink, `randomLevel` over supplied coin flips, `createNode`, and the access and info operations. |
| `SkipListDescent` (skiplist_descent.dfy) | The descent loop exactly as the code writes it, on a one-lane list, with the input on which it dereferences a null node. |

## Model

| member | source | states |
|---|---|---|
| AvlTree.Size | container/include/avl_tree/avl_tree.hpp:259-265 | `size(Node*)` is 0 exactly on a null subtree; its count matches the in-order sequence (InOrderHasElements) |
| AvlTree.InOrderHasElements | container/include/avl_tree/avl_tree.hpp:259-265 | the in-order sequence holds exactly the tree's values and has one entry per node counted by `size` |
| AvlTree.BstSizeIsCardinality | container/include/avl_tree/avl_tree.hpp:254-265 | on a search tree `size()` is the number of distinct values held |
| AvlTree.BstIffAscending | container/include/avl_tree/avl_tree.hpp:24-34 | search-tree order (left below, right above every node) holds exactly when the in-order sequence is strictly ascending |
| AvlTree.BstDescent | container/include/avl_tree/avl_tree.hpp:175-189 | in a search tree a key below the root can only be in the left subtree and one above only in the right |
| AvlTree.HeightIsDepth | container/include/avl_tree/avl_tree.hpp:332-339 | when every height field is 1 + the larger child height, the stored height is the actual depth |
| AvlTree.EmptyTree | container/include/avl_tree/avl_tree.h:25 | a fresh tree has a null head: no values, size 0, height 0, a valid AVL tree |
| AvlTree.NewNode | container/include/avl_tree/avl_tree.h:11-19 | a new node holds the value, has height 1 and no children, and is a one-value AVL tree |
| AvlTree.UpdateHeight | container/include/avl_tree/avl_tree.hpp:332-339 | only the height field changes; with correct child heights the node's height becomes correct and equals its depth |
| AvlTree.GetBalance | container/include/avl_tree/avl_tree.hpp:290-295 | with correct height fields the balance is left depth minus right depth |
| AvlTree.RotationKeepsOrder | container/include/avl_tree/avl_tree.hpp:298-329 | the two shapes a rotation moves between are both search trees or neither is |
| AvlTree.LeftRotate | container/include/avl_tree/avl_tree.hpp:298-311 | keeps the in-order sequence, values, size and order; no-op on a null slot or a null right child; both recomputed heights are correct |
| AvlTree.RightRotate | container/include/avl_tree/avl_tree.hpp:314-329 | mirror of LeftRotate: same in-order sequence, no-op without a left child, heights recomputed demoted node first |
| AvlTree.RebalanceAfterInsert | container/include/avl_tree/avl_tree.hpp:36-63 | whichever of the four rotation shapes is chosen, the in-order sequence, values, size and search-tree order are kept |
| AvlTree.ChildrenReplaced | container/include/avl_tree/avl_tree.hpp:50-53 | rotating a child first, as the double rotations do, leaves the node's in-order sequence and order intact |
| AvlTree.Insert | container/include/avl_tree/avl_tree.hpp:11-66 | a true answer adds exactly the value and one node; a false answer means the value was there and the subtree comes back unchanged, with no height update and no rotation |
| AvlTree.InsertDescends | container/include/avl_tree/avl_tree.hpp:24-34 | insert goes into the right subtree exactly when the node's value is less than the value, and only that subtree's insertion decides the answer |
| AvlTree.InsertBst | container/include/avl_tree/avl_tree.h:68-72 | on a search tree insert returns false exactly when the value already existed, and keeps search-tree order |
| AvlTree.MinNode | container/include/avl_tree/avl_tree.hpp:215-218 | the leftmost node has no left child, holds the first in-order value and, in a search tree, the least value |
| AvlTree.MaxValue | container/include/avl_tree/avl_tree.hpp:201-203 | the rightmost value is the last in-order value and, in a search tree, the greatest |
| AvlTree.DetachMin | container/include/avl_tree/avl_tree.hpp:142-151 | the successor's parent takes the successor's right subtree as its left child: the subtree root keeps its value, stale height field and right child, and loses exactly one node and no foreign value |
| AvlTree.DetachMinInOrder | container/include/avl_tree/avl_tree.hpp:142-151 | unlinking the successor from below its parent removes exactly the first value of the in-order sequence |
| AvlTree.WithoutMin | container/include/avl_tree/avl_tree.hpp:138-151 | the right subtree once the successor is unlinked has one node fewer and only values it already held |
| AvlTree.WithoutMinSplits | container/include/avl_tree/avl_tree.hpp:138-151 | after the successor is unlinked, the right subtree holds the rest of its values, one node fewer, still ordered and all above the successor |
| AvlTree.RemoveNode | container/include/avl_tree/avl_tree.hpp:137-162 | relinking the successor in place keeps the left subtree and yields exactly the two subtrees' values, in order, one node fewer |
| AvlTree.RebalanceAfterRemove | container/include/avl_tree/avl_tree.hpp:113-131 | the removal rebalancing step, with single rotation on a tie, keeps the in-order sequence, values, size and order |
| AvlTree.Remove | container/include/avl_tree/avl_tree.hpp:74-134 | a false answer leaves the subtree unchanged; a true answer means the value was present and one node is gone |
| AvlTree.RemoveBst | container/include/avl_tree/avl_tree.hpp:74-111 | on a search tree remove returns true exactly when the value was present, takes exactly it out, and keeps order in every case |
| AvlTree.RemoveRelinkBst | container/include/avl_tree/avl_tree.hpp:108-110 | removing a two-child root relinks its successor, takes out exactly the root value and keeps order |
| AvlTree.RemoveRootBst | container/include/avl_tree/avl_tree.hpp:88-111 | removing the root's own value (leaf, one child, or successor relink) takes out exactly that value and keeps order |
| AvlTree.Search | container/include/avl_tree/avl_tree.hpp:175-189 | a hit is the key itself and is in the tree; on a search tree every held key is found |
| AvlTree.Contains | container/include/avl_tree/avl_tree.hpp:231-246 | true only for held values, and on a search tree for every held value |
| AvlTree.SearchAgreesWithContains | container/include/avl_tree/avl_tree.hpp:170-246 | `search` is non-null exactly when `contains` is true, on any tree |
| AvlTree.Min | container/include/avl_tree/avl_tree.hpp:206-212 | null exactly on the empty tree, else the first in-order value, the least on a search tree |
| AvlTree.Max | container/include/avl_tree/avl_tree.hpp:192-198 | null exactly on the empty tree, else the last in-order value, the greatest on a search tree |
| AvlTree.TreeHeight | container/include/avl_tree/avl_tree.hpp:249-251 | 0 for a null head; with correct height fields, the tree's depth |
| AvlTree.IsEmpty | container/include/avl_tree/avl_tree.hpp:285-287 | true exactly when the tree holds no value, which is when its size is 0 |
| AvlTree.Clear | container/include/avl_tree/avl_tree.hpp:268-282 | afterwards the tree is empty, with size 0 and height 0 |
| AvlTree.MeetsContainerContract | container/include/container.h:6-22 | on a search tree insert, remove, search, contains, min, max, size, empty and clear each meet the container contract over the element set |
| AvlBalance.SingleRightRotation | container/include/avl_tree/avl_tree.hpp:46-48 | a right rotation balances a node whose left child is two levels taller and does not lean right |
| AvlBalance.SingleLeftRotation | container/include/avl_tree/avl_tree.hpp:56-58 | a left rotation balances a node whose right child is two levels taller and does not lean left |
| AvlBalance.DoubleRightRotation | container/include/avl_tree/avl_tree.hpp:50-53 | the left-right double rotation balances a node whose taller left child leans right |
| AvlBalance.DoubleLeftRotation | container/include/avl_tree/avl_tree.hpp:60-63 | the right-left double rotation balances a node whose taller right child leans left |
| AvlBalance.InsertLeftStep | container/include/avl_tree/avl_tree.hpp:30-63 | after an insertion into the left child, the rotation choice restores correct heights and balance, growing by at most one level |
| AvlBalance.InsertRightStep | container/include/avl_tree/avl_tree.hpp:26-63 | the mirror step after an insertion into the right child |
| AvlBalance.InsertKeepsBalance | container/include/avl_tree/avl_tree.hpp:11-66 | insert keeps height fields correct and balance in [-1, 1], growing the tree by at most one level |
| AvlBalance.InsertKeepsAvl | container/include/avl_tree/avl_tree.hpp:11-71 | insert maps AVL trees to AVL trees |
| AvlBalance.RemoveStepRestoresBalance | container/include/avl_tree/avl_tree.hpp:113-131 | with balanced children at most two levels apart, the removal step's rotation choice, tie included, restores balance and loses at most one level |
| AvlBalance.BalancedHasMinNodes | container/include/avl_tree/avl_tree.hpp:249-265 | a balanced tree of height h has at least the Fibonacci-like minimum node count for h |
| AvlBalance.HeightIsLogarithmic | test/avl_tree.cpp:258-267 | for an AVL tree, 2 to the power of half its height is at most size + 1 |
| AvlRemoveFix.InsertionsBuildExample | container/include/avl_tree/avl_tree.hpp:11-66 | inserting 2, 1, 4, 3 into an empty tree builds the four-node example without rotations |
| AvlRemoveFix.AsWrittenLeavesStaleHeight | container/include/avl_tree/avl_tree.hpp:137-162 | removing 2 from that AVL tree returns a tree whose `height()` is 3 but whose depth is 2, with wrong height fields |
| AvlRemoveFix.RemoveFixed | container/include/avl_tree/avl_tree.hpp:74-162 | the corrected removal: a false answer leaves the tree unchanged, a true answer only for a held value |
| AvlRemoveFix.RemoveFixedBst | container/include/avl_tree/avl_tree.hpp:74-134 | the corrected removal has the same set semantics and keeps search-tree order |
| AvlRemoveFix.RemoveFixedKeepsBalance | container/include/avl_tree/avl_tree.hpp:113-131 | the corrected removal keeps height fields correct and balance in [-1, 1], lowering the tree by at most one level |
| AvlRemoveFix.RemoveFixedKeepsAvl | container/include/avl_tree/avl_tree.hpp:137-162 | the corrected removal maps AVL trees to AVL trees, so `height()` stays the true depth |
| AvlRemoveFix.RemoveFixedMeetsContract | container/include/avl_tree/avl_tree.h:73-77 | the corrected removal meets the container's remove contract |
| AvlIterator.RemainingPush | container/include/avl_tree/iterator.hpp:51-54 | pushing a node puts its value and its right subtree's in-order sequence in front of what was left |
| AvlIterator.PushLeft | container/include/avl_tree/iterator.hpp:48-55 | pushes exactly the left spine on top and keeps the stack below |
| AvlIterator.PushLeftNoNil | container/include/avl_tree/iterator.hpp:51-54 | the loop stops at a null link, so no null node is ever pushed |
| AvlIterator.PushLeftYields | container/include/avl_tree/avl_tree.h:55-60 | what the stack yields after pushing a subtree's left spine is that subtree's in-order sequence, then what was left |
| AvlIterator.PushLeftTop | container/include/avl_tree/avl_tree.h:55-60 | the top after pushing a spine is the subtree's leftmost node |
| AvlIterator.Begin | container/include/avl_tree/avl_tree.hpp:342-345 | `begin()` holds no null node, yields the whole in-order sequence, and is empty exactly on the empty tree |
| AvlIterator.End | container/include/avl_tree/avl_tree.hpp:348-351 | `end()` has nothing left to yield |
| AvlIterator.Deref | container/include/avl_tree/iterator.hpp:5-8 | `*it` on a non-empty stack is the next value to be yielded |
| AvlIterator.Arrow | container/include/avl_tree/iterator.hpp:9-12 | `it->` designates that same next value |
| AvlIterator.Advance | container/include/avl_tree/iterator.hpp:13-22 | `++it` consumes exactly the first remaining value and keeps the stack free of nulls |
| AvlIterator.PostIncrement | container/include/avl_tree/iterator.hpp:23-29 | `it++` returns the pre-advance stack and advances the original once |
| AvlIterator.Equals | container/include/avl_tree/iterator.hpp:30-41 | equal exactly when both stacks are empty, or both are non-empty with the same top node; identical iterators are equal |
| AvlIterator.NotEquals | container/include/avl_tree/iterator.hpp:42-46 | `!=` holds exactly when one stack is empty and the other not, or the tops differ |
| AvlIterator.AtEndIffExhausted | container/include/avl_tree/iterator.hpp:30-46 | an iterator compares equal to `end()` exactly when nothing is left to yield |
| AvlIterator.BeginAtMinimum | container/include/avl_tree/avl_tree.h:42 | the first value `begin()` yields is the leftmost one, the least of a search tree |
| AvlIterator.AdvanceBy | container/include/avl_tree/iterator.hpp:13-22 | after k increments the remaining output is the old one without its first k values |
| AvlIterator.StepsFromBegin | container/include/avl_tree/iterator.hpp:13-22 | after k increments from `begin()` the in-order sequence from position k remains; `end()` is reached exactly after `size()` steps |
| AvlIterator.EqualIffSameStep | container/include/avl_tree/iterator.hpp:30-41 | on a search tree two iterators advanced from `begin()` are equal exactly when advanced equally often, so no node is visited twice |
| AvlIterator.Traverse | container/include/avl_tree/iterator.hpp:13-22 | the loop from `begin()` to `end()` collects the in-order sequence: each value once, size() many, strictly ascending on a search tree |
| SkipLanes.PrefixBelow | container/include/skiplist/skiplist.hpp:19-21 | the slot a lane walk stops at: every earlier value is below the key and the next one is not |
| SkipLanes.PrefixBelowSplits | container/include/skiplist/skiplist.hpp:17-22 | on a sorted lane the positions before that slot are exactly those holding smaller values |
| SkipLanes.PrefixBelowFinds | container/include/skiplist/skiplist.hpp:24-30 | a sorted lane holds the key exactly when the node after the stop slot holds it |
| SkipLanes.PrefixBelowMember | container/include/skiplist/skiplist.hpp:17-22 | a held value below the key stops the walk no later than the key's own stop slot |
| SkipLanes.InsertAt | container/include/skiplist/skiplist.hpp:45-51 | linking a node in after a slot puts it there and shifts the rest by one |
| SkipLanes.InsertAtKeepsOrder | container/include/skiplist/skiplist.hpp:45-51 | linking an absent value in after its stop slot keeps the lane sorted and adds exactly that value |
| SkipLanes.RemoveAt | container/include/skiplist/skiplist.hpp:81-88 | unlinking a node drops it and shifts the rest back by one |
| SkipLanes.RemoveAtKeepsOrder | container/include/skiplist/skiplist.hpp:81-88 | unlinking a node keeps the lane sorted and drops exactly its value |
| SkipLanes.SortedCardinality | container/include/skiplist/skiplist.hpp:198-201 | a sorted lane has as many distinct values as nodes |
| SkipLists.InLowerLanes | container/include/skiplist/skiplist.h:37 | a node of level n is in every lane below n, so a value in a lane is in every lower lane |
| SkipLists.Create | container/include/skiplist/skiplist.h:12-13 | a new list has `_size` 0, `_currentLevel` 0 and no values, and is valid for any maxLevel of at least 1 |
| SkipLists.CreateDefault | container/include/skiplist/skiplist.h:7 | the default list has 20 levels and is empty and valid |
| SkipLists.CreateNode | container/include/skiplist/skiplist.hpp:215-219 | a new node has exactly `level` forward links, all null; `insert` builds its node with it and splices the value into one lane per link (`SkipLists.InsertPlacesNode`) |
| SkipLists.RandomLevel | container/include/skiplist/skiplist.hpp:206-212 | the level lies between 1 and `_maxLevel` |
| SkipLists.LevelUp | container/include/skiplist/skiplist.hpp:207-210 | the loop only raises the level, and never above `_maxLevel` when it starts at or below it |
| SkipLists.RandomLevelCountsHeads | container/include/skiplist/skiplist.hpp:206-212 | the level is 1 plus the number of heads before the first tail, capped at `_maxLevel` |
| SkipLists.Predecessors | container/include/skiplist/skiplist.hpp:12-22 | `update[i]` is null above the current level and the stop slot of lane i below it |
| SkipLists.Descend | container/include/skiplist/skiplist.hpp:17-22 | the descent records every lane's true predecessor and ends at the bottom lane's stop slot |
| SkipLists.WalkLane | container/include/skiplist/skiplist.hpp:19-21 | the walk along one lane from any slot not past the stop slot ends exactly at the stop slot |
| SkipLists.DropLane | container/include/skiplist/skiplist.hpp:17-22 | dropping a lane from the node reached never overshoots the stop slot of the lane below |
| SkipLists.Grow | container/include/skiplist/skiplist.hpp:35-41 | the current level becomes the larger of itself and the node's level, and every new lane gets the header as predecessor |
| SkipLists.GrowRecordsPredecessors | container/include/skiplist/skiplist.hpp:35-41 | after growth every lane below the node's level has its true predecessor recorded |
| SkipLists.Splice | container/include/skiplist/skiplist.hpp:45-51 | below the node's level the node goes right after `update[i]` and takes over its old successor; other lanes are untouched |
| SkipLists.SplicedLanes | container/include/skiplist/skiplist.hpp:43-51 | splicing an absent value adds it, in order, to exactly the lanes below the node's level |
| SkipLists.Insert | container/include/skiplist/skiplist.hpp:10-55 | a false answer changes nothing; a true one increments the size by one; `_maxLevel` never changes |
| SkipLists.InsertCorrect | container/include/skiplist/skiplist.hpp:10-55 | on a valid list insert returns true exactly when the value was absent, adds exactly it, and leaves a valid list |
| SkipLists.InsertPlacesNode | container/include/skiplist/skiplist.hpp:33-51 | a successful insert raises the current level to the node's level if needed and puts the value in exactly the lanes below that level, one per forward link of the new node |
| SkipLists.InsertAbsent | container/include/skiplist/skiplist.hpp:32-54 | inserting an absent value succeeds, grows the size by one and adds it below the drawn level |
| SkipLists.Unlink | container/include/skiplist/skiplist.hpp:82-88 | lanes below the start and from the current level up are untouched |
| SkipLists.UnlinkRemoves | container/include/skiplist/skiplist.hpp:81-88 | with true predecessors recorded, the bottom-up unlink loop with its early stop takes the value out of every lane, each staying sorted |
| SkipLists.UnlinkedLanes | container/include/skiplist/skiplist.hpp:81-88 | unlinking a present value leaves every lane sorted, without the value and a sub-lane of the one below, with one node fewer at the bottom |
| SkipLists.Shrink | container/include/skiplist/skiplist.hpp:95-98 | the level ends at least 1, at most where it was, and either is 1 or has a non-empty top lane; only empty lanes are dropped |
| SkipLists.Remove | container/include/skiplist/skiplist.hpp:60-101 | a false answer changes nothing; a true one decrements the size by one and leaves `_currentLevel` at least 1, at 1 or with a non-empty top lane |
| SkipLists.RemoveCorrect | container/include/skiplist/skiplist.hpp:60-101 | on a valid list remove returns true exactly when the value was present, takes it out of every lane, and leaves a valid list |
| SkipLists.CandidateDecides | container/include/skiplist/skiplist.hpp:24-30 | in a valid list the node after the descent holds the key exactly when the list holds it |
| SkipLists.SizeCountsValues | container/include/skiplist/skiplist.hpp:53-54 | in a valid list `_size` is the number of values held |
| SkipLists.Search | container/include/skiplist/skiplist.hpp:106-127 | a non-null answer is the key and is held; in a valid list every held key is found |
| SkipLists.Contains | container/include/skiplist/skiplist.hpp:152-169 | true only for held values, and in a valid list for every held value |
| SkipLists.Min | container/include/skiplist/skiplist.hpp:144-147 | null exactly on the empty list, else a held value, the least in a valid list, never the header |
| SkipLists.Max | container/include/skiplist/skiplist.hpp:132-141 | null exactly on the empty list, else a held value, the greatest in a valid list, never the header |
| SkipLists.Size | container/include/skiplist/skiplist.hpp:198-201 | on a valid list the stored size is the number of values |
| SkipLists.Empty | container/include/skiplist/skiplist.hpp:192-195 | on a valid list true exactly when no value is held |
| SkipLists.Clear | container/include/skiplist/skiplist.hpp:172-189 | size 0, current level 1, every header link null, no values, `_maxLevel` kept, validity kept |
| SkipLists.MeetsContainerContract | container/include/container.h:6-22 | on a valid list insert (for any coin flips), remove, search, contains, min, size, empty and clear meet the container contract |
| SkipLists.MaxMeetsContract | container/include/container.h:15 | `max()` meets the container contract on a valid list |
| SkipListDescent.DescentAsWritten | container/include/skiplist/skiplist.hpp:111-116 | the written loop on a one-lane list dereferences null exactly on an empty lane, and otherwise stops only at the header (slot 0) or at the last node, whose `forward[0]` is null; it reaches the last node exactly when the once-computed `lessThan` (first value below the key) holds |
| SkipListDescent.SearchAsWritten | container/include/skiplist/skiplist.hpp:106-127 | whenever the written search returns a value, it is the key and is in the lane |
| SkipListDescent.SearchAsWrittenPassesMember | container/include/skiplist/skiplist.hpp:111-124 | searching 5 in the list {1, 5}: the written code walks past 5 and dereferences null, while the intended descent finds 5 |

## Left out

- Values are `int` ordered by `<`, not a generic `T` with `Compare`. So the `==` duplicate test of the tree's insert and comparator equivalence coincide.
- Allocators, `new`/`delete`, and node addresses are not modelled. A node pointer is the subtree or lane element it leads to, so "the same top node" in the iterator is equality of subtrees.
- Randomness is supplied as input. `std::mt19937`, `uniform_real_distribution` and the float `LEVEL_UP_CHANCE` become a sequence of booleans: `true` is a draw below the chance, and running out of flips acts as a tail.
- AvlBalance.HeightIsLogarithmic: states the integer bound 2^(h/2) <= size + 1, not the test's floating-point bound `1.45 * log2(count)`, because floating point is not modelled.
- AvlTree.Remove: the contract claims set semantics and search-tree order only, not height-field correctness or balance. The two-child case leaves a stale height (see Findings). `AvlRemoveFix.RemoveFixed` is the removal with those properties proved.
- Validity is a requires, not a class invariant. `Bst` holds for every tree that insert and remove build (`AvlTree.InsertBst`, `AvlTree.RemoveBst`). `Avl` holds only for trees built by insert and the corrected removal (`AvlBalance.InsertKeepsAvl`, `AvlRemoveFix.RemoveFixedKeepsAvl`); the removal as written can break it (Findings row 1). `Valid` for the skip list is kept by the modelled insert, remove and clear (`SkipLists.InsertCorrect`, `SkipLists.RemoveCorrect`, `SkipLists.Clear`). Properties that need these take them as requires, and the error paths (absent keys, empty containers) are modelled rather than excluded.
- SkipLists.Create: the header has `maxLevel` forward slots, one lane each. The code builds the header with `Node(0)`, that is zero slots, so every access to `forward[level]` is out of range. A `maxLevel` below 1 gives an invalid list.
- SkipLists.Descend: the descent is the loop as intended, not as written. It re-compares at every step, tests for null first, and records `update[level]`, which the code never does. `SkipListDescent` models the written loop and its failure.
- SkipLists.Search: the model checks the candidate for null before comparing it. The code dereferences it first, at line 121 of skiplist.hpp.
- SkipLists.Insert: the candidate is tested for null before the comparison the code makes at line 27 of skiplist.hpp.
- SkipLists.Contains: the candidate is tested for null before the comparison the code makes at line 167 of skiplist.hpp.
- SkipLists.MeetsContainerContract: `max()` is a method with a loop, so its contract is stated separately in `SkipLists.MaxMeetsContract`.
- Iterator behaviour after the tree is modified is undefined in the code and is not modelled.
- The `tree/` directory, an abandoned earlier draft, is not part of this model. Nor are the benchmark programs and the logging macros in `log.h`.

## Findings

| source | as written | input that shows it | evidently intended | confidence | as-written member | corrected member |
|---|---|---|---|---|---|---|
| container/include/avl_tree/avl_tree.hpp:137-162 | `removeNode` unlinks the in-order successor from its parent without recomputing the parent's height, and only the relinked root is rebalanced | insert 2, 1, 4, 3, then remove 2: node 4 keeps height 2 with no children, and `height()` reports 3 for a tree of depth 2 | every node on the successor path gets its height recomputed and its balance repaired, so the tree stays AVL | not executed | AvlRemoveFix.AsWrittenLeavesStaleHeight | AvlRemoveFix.RemoveFixedKeepsAvl |
| container/include/skiplist/skiplist.hpp:111-124 | the descent computes `lessThan` once per level, before the `while` and before the null test, so it either stays put or walks to the end of the lane; the candidate is then dereferenced without a null test | search 5 in a list holding 1 and 5 on one lane: 1 < 5 makes the walk pass 5 and the code dereferences the null link after the last node | re-compare on every step after a null test, stop before the first node not below the key, and find 5 | not executed | SkipListDescent.SearchAsWrittenPassesMember | SkipLists.Descend |
