/** The skip list engine (`SkipList` in skiplist.h / skiplist.hpp), modelled
    as its lanes: lane `i` is the sequence of values whose nodes have a
    level above `i`, in the order the header's `forward[i]` chain visits
    them.  A node of level `n` appears in lanes `0 .. n - 1`; a value is one
    node, so a link pointing at "the node holding `v`" is the same as
    pointing at the lane element `v`.

    The header is given one forward slot per possible level (`maxLevel`
    lanes), and every descent re-compares on each step and records its
    predecessor per level; how this departs from the written code is noted
    at each member. */
module SkipLists {
  import opened Container
  import opened SkipLanes

  /** `DEFAULT_MAX_LEVEL`. */
  const DefaultMaxLevel: int := 20

  /** The list: the constant `_maxLevel`, `_currentLevel`, `_size` and the
      header's lanes. */
  datatype SkipList = SkipList(maxLevel: int, currentLevel: int, size: nat, lanes: seq<seq<int>>)

  /** What `insert` and `remove` return together with the list they leave. */
  datatype Outcome = Outcome(changed: bool, list: SkipList)

  /** A predecessor pointer in `update[]`: null, the header, or the node at
      index `index` of the lane. */
  datatype Pred = Null | Header | Elem(index: nat)

  /** The slot a non-null predecessor occupies in its lane. */
  function Slot(p: Pred): nat
    requires !p.Null?
  {
    if p.Header? then 0 else p.index + 1
  }

  /** The predecessor occupying a slot. */
  function AtSlot(slot: nat): (p: Pred)
    ensures !p.Null? && Slot(p) == slot
  {
    if slot == 0 then Header else Elem(slot - 1)
  }

  /** The structural invariant: one lane per level, each sorted, each lane
      a sub-lane of the one below, nothing above `_currentLevel`, and
      `_size` counting the bottom lane. */
  ghost predicate Valid(sl: SkipList)
  {
    && sl.maxLevel >= 1
    && |sl.lanes| == sl.maxLevel
    && 0 <= sl.currentLevel <= sl.maxLevel
    && (forall i :: 0 <= i < |sl.lanes| ==> Sorted(sl.lanes[i]))
    && (forall i :: 0 < i < |sl.lanes| ==> SubLane(sl.lanes[i], sl.lanes[i - 1]))
    && (forall i :: sl.currentLevel <= i < |sl.lanes| ==> sl.lanes[i] == [])
    && sl.size == |sl.lanes[0]|
  }

  /** Every value of the upper lane is in the lower one. */
  ghost predicate SubLane(upper: seq<int>, lower: seq<int>)
  {
    forall x :: x in upper ==> x in lower
  }

  /** The values the list holds: those of the bottom lane. */
  function Elements(sl: SkipList): set<int>
  {
    if |sl.lanes| == 0 then {} else Members(sl.lanes[0])
  }

  /** In a valid list a value in some lane is in every lane below it. */
  lemma {:induction false} InLowerLanes(sl: SkipList, i: nat, j: nat, x: int)
    requires Valid(sl) && j <= i < |sl.lanes| && x in sl.lanes[i]
    ensures x in sl.lanes[j]
    decreases i
  {
    if j < i {
      InLowerLanes(sl, i - 1, j, x);
    }
  }

  // ---------------------------------------------------------------------
  // Construction

  /** `SkipList(int maxLevel)`: `_size` 0 and `_currentLevel` 0, with every
      header link null. */
  function Create(maxLevel: int): (sl: SkipList)
    ensures sl.maxLevel == maxLevel && sl.size == 0 && sl.currentLevel == 0
    ensures Elements(sl) == {}
    ensures maxLevel >= 1 ==> Valid(sl)
  {
    SkipList(maxLevel, 0, 0, seq(if maxLevel > 0 then maxLevel else 0, _ => []))
  }

  /** `SkipList()`: the default of twenty levels. */
  function CreateDefault(): (sl: SkipList)
    ensures sl.maxLevel == 20 && Valid(sl) && Elements(sl) == {} && sl.size == 0
  {
    Create(DefaultMaxLevel)
  }

  /** A node as `createNode` builds it: a value and `level` forward links,
      all null. */
  datatype SkipNode = SkipNode(value: int, forward: seq<Pred>)

  /** `createNode(value, level)`, that is `Node(val, level)`. */
  function CreateNode(value: int, level: nat): (n: SkipNode)
    ensures n.value == value && |n.forward| == level
    ensures forall i :: 0 <= i < |n.forward| ==> n.forward[i].Null?
  {
    SkipNode(value, seq(level, _ => Null))
  }

  // ---------------------------------------------------------------------
  // The level of a new node

  /** The number of heads before the first tail. */
  function LeadingHeads(flips: seq<bool>): nat
  {
    if |flips| == 0 || !flips[0] then 0 else 1 + LeadingHeads(flips[1..])
  }

  /** `randomLevel()`: start at 1 and go up one level per head, stopping at
      the first tail or at `_maxLevel`.  Each coin flip is supplied: `true`
      stands for a draw below `LEVEL_UP_CHANCE`; running out of flips acts
      as a tail. */
  function RandomLevel(maxLevel: int, flips: seq<bool>): (level: int)
    ensures 1 <= level
    ensures maxLevel >= 1 ==> level <= maxLevel
  {
    LevelUp(1, maxLevel, flips)
  }

  /** The loop of `randomLevel` from a given level on. */
  function LevelUp(level: int, maxLevel: int, flips: seq<bool>): (r: int)
    ensures level <= r
    ensures level <= maxLevel ==> r <= maxLevel
    decreases |flips|
  {
    if |flips| > 0 && flips[0] && level < maxLevel then LevelUp(level + 1, maxLevel, flips[1..])
    else level
  }

  /** The level is one plus the number of leading heads, capped at the
      maximum level. */
  lemma {:induction false} RandomLevelCountsHeads(maxLevel: int, flips: seq<bool>)
    requires maxLevel >= 1
    ensures RandomLevel(maxLevel, flips) == if 1 + LeadingHeads(flips) < maxLevel then 1 + LeadingHeads(flips) else maxLevel
  {
    LevelUpCountsHeads(1, maxLevel, flips);
  }

  lemma {:induction false} LevelUpCountsHeads(level: int, maxLevel: int, flips: seq<bool>)
    requires level <= maxLevel
    ensures LevelUp(level, maxLevel, flips) ==
            if level + LeadingHeads(flips) < maxLevel then level + LeadingHeads(flips) else maxLevel
    decreases |flips|
  {
    if |flips| > 0 && flips[0] && level < maxLevel {
      LevelUpCountsHeads(level + 1, maxLevel, flips[1..]);
    }
  }

  // ---------------------------------------------------------------------
  // The descent

  /** The predecessors a descent for `v` records: on each lane below the
      current level, the last node (or the header) whose value is below
      `v`; null on the lanes above. */
  function Predecessors(sl: SkipList, v: int): (update: seq<Pred>)
    ensures |update| == |sl.lanes|
    ensures forall i :: 0 <= i < |sl.lanes| && sl.currentLevel <= i ==> update[i].Null?
    ensures forall i :: 0 <= i < |sl.lanes| && i < sl.currentLevel ==>
              !update[i].Null? && Slot(update[i]) == PrefixBelow(sl.lanes[i], v)
  {
    seq(|sl.lanes|, i requires 0 <= i < |sl.lanes| =>
      if i < sl.currentLevel then AtSlot(PrefixBelow(sl.lanes[i], v)) else Null)
  }

  /** The descent shared by `insert`, `remove`, `search` and `contains`,
      written as intended: from the header on the top lane, move right while
      the next node's value is below `v` (comparing again at every step and
      testing for null first), record the node reached as `update[level]`,
      and drop one lane.  `pos` is the bottom-lane slot reached, whose
      `forward[0]` is the candidate node. */
  method Descend(sl: SkipList, v: int) returns (update: seq<Pred>, pos: nat)
    requires Valid(sl)
    ensures update == Predecessors(sl, v)
    ensures pos == PrefixBelow(sl.lanes[0], v)
  {
    update := seq(sl.maxLevel, _ => Null);
    pos := 0;
    var level := sl.currentLevel - 1;
    while level >= 0
      invariant Recorded(sl, v, update, level)
      invariant level >= 0 ==> pos <= PrefixBelow(sl.lanes[level], v)
      invariant level < 0 ==> pos == PrefixBelow(sl.lanes[0], v)
      decreases level
    {
      var lane := sl.lanes[level];
      pos := WalkLane(lane, v, pos);
      RecordStep(sl, v, update, level, pos);
      update := update[level := AtSlot(pos)];
      if level > 0 && pos > 0 {
        DropLane(sl, level, v);
        pos := PrefixBelow(sl.lanes[level - 1], lane[pos - 1]) + 1;
      }
      level := level - 1;
    }
    RecordedAll(sl, v, update);
  }

  /** The descent's bookkeeping below lane `level`: `update` holds null on
      the lanes not yet visited and above the current level, and the true
      predecessor on every lane already left. */
  ghost predicate Recorded(sl: SkipList, v: int, update: seq<Pred>, level: int)
  {
    && |update| == |sl.lanes|
    && -1 <= level < sl.currentLevel <= |sl.lanes|
    && (forall i :: 0 <= i < |update| && (i <= level || sl.currentLevel <= i) ==> update[i].Null?)
    && (forall i :: level < i < sl.currentLevel ==>
          !update[i].Null? && Slot(update[i]) == PrefixBelow(sl.lanes[i], v))
  }

  /** Recording the predecessor found on lane `level` moves the
      bookkeeping down one lane. */
  lemma RecordStep(sl: SkipList, v: int, update: seq<Pred>, level: int, pos: nat)
    requires Recorded(sl, v, update, level) && level >= 0
    requires pos == PrefixBelow(sl.lanes[level], v)
    ensures Recorded(sl, v, update[level := AtSlot(pos)], level - 1)
  {
  }

  /** Once every lane below the current level is visited, `update` is the
      sequence of true predecessors. */
  lemma RecordedAll(sl: SkipList, v: int, update: seq<Pred>)
    requires Recorded(sl, v, update, -1)
    ensures update == Predecessors(sl, v)
  {
    var p := Predecessors(sl, v);
    forall i | 0 <= i < |update| ensures update[i] == p[i] {
      if i < sl.currentLevel {
        assert Slot(update[i]) == Slot(p[i]);
      }
    }
  }

  /** Dropping from the node reached on one lane to the same node on the
      lane below lands no further than where the descent stops there. */
  lemma DropLane(sl: SkipList, level: nat, v: int)
    requires Valid(sl) && 0 < level < |sl.lanes| && PrefixBelow(sl.lanes[level], v) > 0
    ensures var x := sl.lanes[level][PrefixBelow(sl.lanes[level], v) - 1];
            PrefixBelow(sl.lanes[level - 1], x) + 1 <= PrefixBelow(sl.lanes[level - 1], v)
  {
    var x := sl.lanes[level][PrefixBelow(sl.lanes[level], v) - 1];
    InLowerLanes(sl, level, level - 1, x);
    PrefixBelowMember(sl.lanes[level - 1], x, v);
  }

  /** The inner loop of the descent on one lane: from slot `start`, move
      right while the next node's value is below `v`. */
  method WalkLane(lane: seq<int>, v: int, start: nat) returns (pos: nat)
    requires Sorted(lane) && start <= PrefixBelow(lane, v)
    ensures pos == PrefixBelow(lane, v)
  {
    PrefixBelowSplits(lane, v);
    pos := start;
    while pos < |lane| && lane[pos] < v
      invariant pos <= PrefixBelow(lane, v)
      decreases |lane| - pos
    {
      pos := pos + 1;
    }
  }

  // ---------------------------------------------------------------------
  // Insertion

  /** The level growth of `insert`: when the new node is taller than the
      current level, the header becomes the predecessor on every new lane
      and the current level rises to the node's level. */
  function Grow(update: seq<Pred>, currentLevel: int, nodeLevel: int): (r: (seq<Pred>, int))
    requires 0 <= currentLevel && nodeLevel <= |update|
    ensures |r.0| == |update|
    ensures r.1 == if nodeLevel > currentLevel then nodeLevel else currentLevel
    ensures forall i :: 0 <= i < |update| && currentLevel <= i < nodeLevel ==> r.0[i] == Header
    ensures forall i :: 0 <= i < |update| && !(currentLevel <= i < nodeLevel) ==> r.0[i] == update[i]
  {
    if nodeLevel > currentLevel then
      (seq(|update|, i requires 0 <= i < |update| =>
         if currentLevel <= i < nodeLevel then Header else update[i]), nodeLevel)
    else (update, currentLevel)
  }

  /** After growth, every lane the new node enters has its true
      predecessor recorded: the descent's on the old lanes, the header on
      the new (empty) ones. */
  lemma GrowRecordsPredecessors(sl: SkipList, v: int, nodeLevel: int)
    requires Valid(sl) && 1 <= nodeLevel <= sl.maxLevel
    ensures var g := Grow(Predecessors(sl, v), sl.currentLevel, nodeLevel);
            forall i :: 0 <= i < nodeLevel ==> !g.0[i].Null? && Slot(g.0[i]) == PrefixBelow(sl.lanes[i], v)
  {
  }

  /** The splice loop of `insert`: on each lane below the node's level the
      new node goes right after the recorded predecessor, taking over the
      predecessor's old successor; the lanes above are not touched. */
  function Splice(lanes: seq<seq<int>>, update: seq<Pred>, nodeLevel: int, v: int): (r: seq<seq<int>>)
    requires 0 <= nodeLevel <= |lanes| <= |update|
    requires forall i :: 0 <= i < nodeLevel ==> !update[i].Null? && Slot(update[i]) <= |lanes[i]|
    ensures |r| == |lanes|
    ensures forall i :: nodeLevel <= i < |lanes| ==> r[i] == lanes[i]
    ensures forall i :: 0 <= i < nodeLevel ==>
              var s := Slot(update[i]);
              |r[i]| == |lanes[i]| + 1 && r[i][s] == v &&
              r[i][..s] == lanes[i][..s] && r[i][s + 1..] == lanes[i][s..]
  {
    seq(|lanes|, i requires 0 <= i < |lanes| =>
      if i < nodeLevel then InsertAt(lanes[i], Slot(update[i]), v) else lanes[i])
  }

  /** `insert(value)`.  The descent finds the bottom-lane candidate; an
      equivalent value there means `false` and no change.  Otherwise the
      node's level is drawn, the lanes grow if needed, the node is spliced
      in and the size goes up by one. */
  function Insert(sl: SkipList, v: int, flips: seq<bool>): (r: Outcome)
    requires Valid(sl)
    ensures r.list.maxLevel == sl.maxLevel
    ensures !r.changed ==> r.list == sl
    ensures r.changed ==> r.list.size == sl.size + 1
  {
    var bottom := sl.lanes[0];
    var pos := PrefixBelow(bottom, v);
    if pos < |bottom| && !(v < bottom[pos]) && !(bottom[pos] < v) then Outcome(false, sl)
    else
      var nodeLevel := RandomLevel(sl.maxLevel, flips);
      var g := Grow(Predecessors(sl, v), sl.currentLevel, nodeLevel);
      var node := CreateNode(v, nodeLevel);
      GrowRecordsPredecessors(sl, v, nodeLevel);
      Outcome(true, SkipList(sl.maxLevel, g.1, sl.size + 1, Splice(sl.lanes, g.0, |node.forward|, node.value)))
  }

  /** `insert` on a valid list returns true exactly when the value was
      absent, adds exactly that value, keeps the list valid, raises the
      current level to the node's level if needed, and puts the value in
      exactly the lanes below the node's level. */
  lemma InsertCorrect(sl: SkipList, v: int, flips: seq<bool>)
    requires Valid(sl)
    ensures Valid(Insert(sl, v, flips).list)
    ensures Insert(sl, v, flips).changed <==> v !in Elements(sl)
    ensures Elements(Insert(sl, v, flips).list) == Elements(sl) + {v}
  {
    PrefixBelowFinds(sl.lanes[0], v);
    if v !in sl.lanes[0] {
      var nodeLevel := RandomLevel(sl.maxLevel, flips);
      var l := Insert(sl, v, flips).list;
      InsertAbsent(sl, v, flips);
      SplicedValid(sl, v, nodeLevel, l.currentLevel, l.lanes);
      AddedMembers(sl.lanes[0], l.lanes[0], v);
    }
  }

  /** A successful `insert` raises the current level to the node's level
      if needed and puts the value in exactly the lanes below that level:
      one lane per forward link of the node `createNode` builds. */
  lemma InsertPlacesNode(sl: SkipList, v: int, flips: seq<bool>)
    requires Valid(sl)
    ensures Insert(sl, v, flips).changed ==>
              var level := RandomLevel(sl.maxLevel, flips);
              var l := Insert(sl, v, flips).list;
              l.currentLevel == (if level > sl.currentLevel then level else sl.currentLevel) &&
              forall i :: 0 <= i < |l.lanes| ==> (v in l.lanes[i] <==> i < level)
    ensures Insert(sl, v, flips).changed ==>
              var node := CreateNode(v, RandomLevel(sl.maxLevel, flips));
              var l := Insert(sl, v, flips).list;
              forall i :: 0 <= i < |l.lanes| ==> (node.value in l.lanes[i] <==> i < |node.forward|)
  {
    PrefixBelowFinds(sl.lanes[0], v);
    if v !in sl.lanes[0] {
      InsertAbsent(sl, v, flips);
    }
  }

  /** `insert` of an absent value: the lanes below the node's level gain
      it, the current level covers the node, the size grows by one. */
  lemma InsertAbsent(sl: SkipList, v: int, flips: seq<bool>)
    requires Valid(sl) && v !in sl.lanes[0]
    ensures var level := RandomLevel(sl.maxLevel, flips);
            var l := Insert(sl, v, flips).list;
            && Insert(sl, v, flips).changed
            && l.maxLevel == sl.maxLevel && l.size == sl.size + 1
            && l.currentLevel == (if level > sl.currentLevel then level else sl.currentLevel)
            && AddedBelow(sl.lanes, l.lanes, level, v)
  {
    PrefixBelowFinds(sl.lanes[0], v);
    SplicedLanes(sl, v, RandomLevel(sl.maxLevel, flips));
  }

  /** The bottom lane after an insertion holds the old values and `v`. */
  lemma AddedMembers(before: seq<int>, after: seq<int>, v: int)
    requires forall x :: x in after <==> x in before || x == v
    ensures Members(after) == Members(before) + {v}
  {
    forall x ensures x in Members(after) <==> x in Members(before) + {v} {
      assert x in Members(after) <==> x in after;
    }
  }

  /** `after` is `before` with `v` linked into the lanes below `level`
      and every other lane untouched. */
  ghost predicate AddedBelow(before: seq<seq<int>>, after: seq<seq<int>>, level: int, v: int)
  {
    && |after| == |before|
    && 1 <= level <= |before|
    && (forall i :: 0 <= i < level ==> Sorted(after[i]) && |after[i]| == |before[i]| + 1)
    && (forall i :: 0 <= i < level ==> forall x :: x in after[i] <==> x in before[i] || x == v)
    && (forall i :: level <= i < |before| ==> after[i] == before[i] && v !in before[i])
  }

  /** Splicing a new value in after the recorded predecessors adds it,
      in order, to exactly the lanes below the node's level. */
  lemma SplicedLanes(sl: SkipList, v: int, nodeLevel: int)
    requires Valid(sl) && v !in sl.lanes[0] && 1 <= nodeLevel <= sl.maxLevel
    ensures AddedBelow(sl.lanes, Splice(sl.lanes, Grow(Predecessors(sl, v), sl.currentLevel, nodeLevel).0, nodeLevel, v), nodeLevel, v)
  {
    GrowRecordsPredecessors(sl, v, nodeLevel);
    var g := Grow(Predecessors(sl, v), sl.currentLevel, nodeLevel);
    var lanes := Splice(sl.lanes, g.0, nodeLevel, v);
    forall i | 0 <= i < |sl.lanes| ensures v !in sl.lanes[i] {
      if v in sl.lanes[i] { InLowerLanes(sl, i, 0, v); }
    }
    forall i | 0 <= i < nodeLevel
      ensures Sorted(lanes[i]) && forall x :: x in lanes[i] <==> x in sl.lanes[i] || x == v
    {
      InsertAtKeepsOrder(sl.lanes[i], v);
      assert lanes[i] == InsertAt(sl.lanes[i], PrefixBelow(sl.lanes[i], v), v);
    }
  }

  /** Lanes with a value added below a level, under a current level that
      covers it, form a valid list again. */
  lemma SplicedValid(sl: SkipList, v: int, nodeLevel: int, currentLevel: int, lanes: seq<seq<int>>)
    requires Valid(sl) && AddedBelow(sl.lanes, lanes, nodeLevel, v)
    requires currentLevel == if nodeLevel > sl.currentLevel then nodeLevel else sl.currentLevel
    ensures Valid(SkipList(sl.maxLevel, currentLevel, sl.size + 1, lanes))
  {
    forall i | 0 < i < |lanes| ensures SubLane(lanes[i], lanes[i - 1]) {
      assert SubLane(sl.lanes[i], sl.lanes[i - 1]);
    }
  }

  // ---------------------------------------------------------------------
  // Removal

  /** The unlink loop of `remove`, from lane `i` up to `limit` (the current
      level): while the recorded predecessor's `forward[i]` is the removed
      node, point it past that node; stop at the first lane where it is
      not. */
  function Unlink(lanes: seq<seq<int>>, update: seq<Pred>, i: nat, limit: nat, v: int): (r: seq<seq<int>>)
    requires limit <= |lanes| && limit <= |update|
    requires forall j :: i <= j < limit ==> !update[j].Null? && Slot(update[j]) <= |lanes[j]|
    ensures |r| == |lanes|
    ensures forall j :: 0 <= j < |lanes| && (j < i || limit <= j) ==> r[j] == lanes[j]
    decreases limit - i
  {
    if i >= limit then lanes
    else
      var s := Slot(update[i]);
      if !(s < |lanes[i]| && lanes[i][s] == v) then lanes
      else Unlink(lanes[i := RemoveAt(lanes[i], s)], update, i + 1, limit, v)
  }

  /** What the unlink loop may assume from lane `i` on: the true
      predecessors are recorded up to `limit`, every lane is sorted and a
      sub-lane of the one below, and the lanes from `limit` up are empty. */
  ghost predicate UnlinkReady(lanes: seq<seq<int>>, update: seq<Pred>, i: nat, limit: nat, v: int)
  {
    && limit <= |lanes| && limit <= |update|
    && (forall j :: i <= j < limit ==> !update[j].Null? && Slot(update[j]) == PrefixBelow(lanes[j], v))
    && (forall j :: i <= j < limit ==> Slot(update[j]) <= |lanes[j]|)
    && (forall j :: i <= j < |lanes| ==> Sorted(lanes[j]))
    && (forall j :: i < j < |lanes| ==> SubLane(lanes[j], lanes[j - 1]))
    && (forall j :: limit <= j < |lanes| ==> lanes[j] == [])
  }

  /** From lane `i` up, `after` is `before` with `v` taken out of each
      lane, each lane still sorted. */
  ghost predicate RemovedFrom(before: seq<seq<int>>, after: seq<seq<int>>, i: nat, v: int)
  {
    && |after| == |before|
    && forall j :: i <= j < |before| ==>
         && Sorted(after[j])
         && (forall x :: x in after[j] <==> x in before[j] && x != v)
         && |after[j]| + (if v in before[j] then 1 else 0) == |before[j]|
  }

  /** Given the true predecessors, unlinking from lane `i` on takes `v` out
      of every lane from `i` up, keeping each sorted. */
  lemma {:induction false} UnlinkRemoves(lanes: seq<seq<int>>, update: seq<Pred>, i: nat, limit: nat, v: int)
    requires UnlinkReady(lanes, update, i, limit, v)
    ensures RemovedFrom(lanes, Unlink(lanes, update, i, limit, v), i, v)
    decreases limit - i
  {
    if i >= limit {
      NothingLeft(lanes, i, v);
    } else {
      var s := Slot(update[i]);
      PrefixBelowFinds(lanes[i], v);
      if !(s < |lanes[i]| && lanes[i][s] == v) {
        NotAbove(lanes, i, v);
        NothingLeft(lanes, i, v);
      } else {
        var lanes' := lanes[i := RemoveAt(lanes[i], s)];
        UnlinkOne(lanes, update, i, limit, v);
        UnlinkRemoves(lanes', update, i + 1, limit, v);
        UnlinkedOne(lanes, s, Unlink(lanes', update, i + 1, limit, v), i, v);
      }
    }
  }

  /** Lanes none of which from `i` up holds `v` are already `v`-free. */
  lemma NothingLeft(lanes: seq<seq<int>>, i: nat, v: int)
    requires forall j :: i <= j < |lanes| ==> Sorted(lanes[j])
    requires forall j :: i <= j < |lanes| ==> v !in lanes[j]
    ensures RemovedFrom(lanes, lanes, i, v)
  {
  }

  /** Unlinking `v` from lane `i`, where the recorded predecessor's link
      points at it, leaves the lanes above ready for the next step. */
  lemma UnlinkOne(lanes: seq<seq<int>>, update: seq<Pred>, i: nat, limit: nat, v: int)
    requires UnlinkReady(lanes, update, i, limit, v) && i < limit
    requires Slot(update[i]) < |lanes[i]| && lanes[i][Slot(update[i])] == v
    ensures UnlinkReady(lanes[i := RemoveAt(lanes[i], Slot(update[i]))], update, i + 1, limit, v)
  {
  }

  /** Lane `i` with `v` unlinked, followed by lanes above with `v` taken
      out, is every lane from `i` up with `v` taken out. */
  lemma UnlinkedOne(lanes: seq<seq<int>>, k: nat, r: seq<seq<int>>, i: nat, v: int)
    requires i < |lanes| && Sorted(lanes[i]) && k < |lanes[i]| && lanes[i][k] == v
    requires RemovedFrom(lanes[i := RemoveAt(lanes[i], k)], r, i + 1, v)
    requires r[i] == RemoveAt(lanes[i], k)
    ensures RemovedFrom(lanes, r, i, v)
  {
    RemoveAtKeepsOrder(lanes[i], k);
  }

  /** A value missing from one lane is missing from every lane above. */
  lemma {:induction false} NotAbove(lanes: seq<seq<int>>, i: nat, v: int)
    requires i < |lanes| && v !in lanes[i]
    requires forall j :: i < j < |lanes| ==> SubLane(lanes[j], lanes[j - 1])
    ensures forall j :: i <= j < |lanes| ==> v !in lanes[j]
    decreases |lanes| - i
  {
    if i + 1 < |lanes| {
      NotAbove(lanes, i + 1, v);
    }
  }

  /** The level shrink of `remove`: while the current level is above 1 and
      the header's link on the top lane is null, drop a level. */
  function Shrink(lanes: seq<seq<int>>, currentLevel: int): (r: int)
    requires currentLevel <= |lanes|
    ensures r <= currentLevel
    ensures currentLevel >= 1 ==> r >= 1
    ensures currentLevel <= 1 ==> r == currentLevel
    ensures r > 1 ==> lanes[r - 1] != []
    ensures forall j :: r <= j < currentLevel ==> lanes[j] == []
    decreases currentLevel
  {
    if currentLevel > 1 && lanes[currentLevel - 1] == [] then Shrink(lanes, currentLevel - 1)
    else currentLevel
  }

  /** `remove(value)`.  The descent finds the bottom-lane candidate; when
      it is null or not equivalent, `false` and no change.  Otherwise the
      node is unlinked lane by lane, the size goes down by one and the
      current level shrinks past empty top lanes. */
  function Remove(sl: SkipList, v: int): (r: Outcome)
    requires Valid(sl)
    ensures r.list.maxLevel == sl.maxLevel
    ensures !r.changed ==> r.list == sl
    ensures r.changed ==> r.list.size + 1 == sl.size
    ensures |r.list.lanes| == |sl.lanes|
    ensures r.changed ==> 1 <= r.list.currentLevel <= sl.currentLevel
    ensures r.changed ==> r.list.currentLevel == 1 || r.list.lanes[r.list.currentLevel - 1] != []
  {
    var bottom := sl.lanes[0];
    var pos := PrefixBelow(bottom, v);
    if pos >= |bottom| || v < bottom[pos] || bottom[pos] < v then Outcome(false, sl)
    else
      assert bottom != [] && sl.currentLevel >= 1;
      var lanes := Unlink(sl.lanes, Predecessors(sl, v), 0, sl.currentLevel, v);
      Outcome(true, SkipList(sl.maxLevel, Shrink(lanes, sl.currentLevel), sl.size - 1, lanes))
  }

  /** `remove` on a valid list returns true exactly when the value was
      present, takes exactly that value out of every lane, and keeps the
      list valid. */
  lemma RemoveCorrect(sl: SkipList, v: int)
    requires Valid(sl)
    ensures Valid(Remove(sl, v).list)
    ensures Remove(sl, v).changed <==> v in Elements(sl)
    ensures Elements(Remove(sl, v).list) == Elements(sl) - {v}
    ensures forall i :: 0 <= i < |Remove(sl, v).list.lanes| ==> v !in Remove(sl, v).list.lanes[i]
  {
    PrefixBelowFinds(sl.lanes[0], v);
    if v in sl.lanes[0] {
      RemovePresent(sl, v);
    } else {
      forall i | 0 <= i < |sl.lanes| ensures v !in sl.lanes[i] {
        if v in sl.lanes[i] { InLowerLanes(sl, i, 0, v); }
      }
    }
  }

  /** The unlinked lanes of a valid list holding `v`: every lane loses
      exactly `v`, stays sorted and stays a sub-lane of the one below. */
  lemma UnlinkedLanes(sl: SkipList, v: int)
    requires Valid(sl) && v in sl.lanes[0]
    ensures sl.currentLevel >= 1
    ensures var lanes := Unlink(sl.lanes, Predecessors(sl, v), 0, sl.currentLevel, v);
            |lanes| == |sl.lanes| &&
            (forall i :: 0 <= i < |lanes| ==> Sorted(lanes[i])) &&
            (forall i :: 0 <= i < |lanes| ==> forall x :: x in lanes[i] <==> x in sl.lanes[i] && x != v) &&
            (forall i :: 0 < i < |lanes| ==> SubLane(lanes[i], lanes[i - 1])) &&
            |lanes[0]| + 1 == |sl.lanes[0]|
  {
    var update := Predecessors(sl, v);
    assert UnlinkReady(sl.lanes, update, 0, sl.currentLevel, v);
    UnlinkRemoves(sl.lanes, update, 0, sl.currentLevel, v);
    var lanes := Unlink(sl.lanes, update, 0, sl.currentLevel, v);
    forall i | 0 < i < |lanes| ensures SubLane(lanes[i], lanes[i - 1]) {
      assert SubLane(sl.lanes[i], sl.lanes[i - 1]);
    }
  }

  lemma RemovePresent(sl: SkipList, v: int)
    requires Valid(sl) && v in sl.lanes[0]
    ensures Remove(sl, v).changed
    ensures Valid(Remove(sl, v).list)
    ensures Elements(Remove(sl, v).list) == Elements(sl) - {v}
    ensures forall i :: 0 <= i < |Remove(sl, v).list.lanes| ==> v !in Remove(sl, v).list.lanes[i]
  {
    PrefixBelowFinds(sl.lanes[0], v);
    UnlinkedLanes(sl, v);
    var lanes := Unlink(sl.lanes, Predecessors(sl, v), 0, sl.currentLevel, v);
    var l := Remove(sl, v).list;
    assert l.lanes == lanes;
    assert Members(lanes[0]) == Members(sl.lanes[0]) - {v};
  }

  // ---------------------------------------------------------------------
  // Access and info

  /** In a valid list the bottom-lane candidate after the descent is the
      value exactly when the list holds it. */
  lemma CandidateDecides(sl: SkipList, v: int)
    requires |sl.lanes| > 0
    ensures Valid(sl) ==>
              (v in Elements(sl) <==>
               PrefixBelow(sl.lanes[0], v) < |sl.lanes[0]| && sl.lanes[0][PrefixBelow(sl.lanes[0], v)] == v)
  {
    if Valid(sl) { PrefixBelowFinds(sl.lanes[0], v); }
  }

  /** In a valid list the stored size is the number of values. */
  lemma SizeCountsValues(sl: SkipList)
    ensures Valid(sl) ==> sl.size == |Elements(sl)|
  {
    if Valid(sl) { SortedCardinality(sl.lanes[0]); }
  }

  /** `search(value)`: the candidate after the descent, when equivalent. */
  function Search(sl: SkipList, v: int): (r: Option<int>)
    requires |sl.lanes| > 0
    ensures r.Some? ==> r.value == v && v in Elements(sl)
    ensures Valid(sl) && v in Elements(sl) ==> r.Some?
  {
    var bottom := sl.lanes[0];
    var pos := PrefixBelow(bottom, v);
    CandidateDecides(sl, v);
    if pos < |bottom| && !(v < bottom[pos]) && !(bottom[pos] < v) then Some(bottom[pos]) else None
  }

  /** `contains(value)`: the same test, answering a boolean. */
  function Contains(sl: SkipList, v: int): (b: bool)
    requires |sl.lanes| > 0
    ensures b ==> v in Elements(sl)
    ensures Valid(sl) && v in Elements(sl) ==> b
  {
    var bottom := sl.lanes[0];
    var pos := PrefixBelow(bottom, v);
    CandidateDecides(sl, v);
    pos < |bottom| && !(v < bottom[pos]) && !(bottom[pos] < v)
  }

  /** `min()`: the header's bottom-lane successor, null when there is none. */
  function Min(sl: SkipList): (r: Option<int>)
    requires |sl.lanes| > 0
    ensures r.None? <==> Elements(sl) == {}
    ensures r.Some? ==> r.value in Elements(sl)
    ensures Valid(sl) && r.Some? ==> forall y :: y in Elements(sl) ==> r.value <= y
  {
    var bottom := sl.lanes[0];
    if |bottom| == 0 then None
    else
      assert bottom[0] in Members(bottom);
      Some(bottom[0])
  }

  /** `max()`: walk the bottom lane to its last node; null when the walk
      never leaves the header. */
  method Max(sl: SkipList) returns (r: Option<int>)
    requires |sl.lanes| > 0
    ensures r.None? <==> Elements(sl) == {}
    ensures r.Some? ==> r.value in Elements(sl)
    ensures Valid(sl) && r.Some? ==> forall y :: y in Elements(sl) ==> y <= r.value
  {
    var bottom := sl.lanes[0];
    var x := 0;
    while x < |bottom|
      invariant x <= |bottom|
      invariant Valid(sl) && x > 0 ==> forall j :: 0 <= j < x ==> bottom[j] <= bottom[x - 1]
    {
      x := x + 1;
    }
    if x == 0 {
      r := None;
    } else {
      assert bottom[x - 1] in Members(bottom);
      r := Some(bottom[x - 1]);
    }
  }

  /** `size()`: the stored count, which a valid list keeps equal to the
      number of values. */
  function Size(sl: SkipList): (n: nat)
    ensures Valid(sl) ==> n == |Elements(sl)|
  {
    SizeCountsValues(sl);
    sl.size
  }

  /** `empty()`: the stored count is zero. */
  function Empty(sl: SkipList): (b: bool)
    ensures Valid(sl) ==> (b <==> Elements(sl) == {})
  {
    SizeCountsValues(sl);
    sl.size == 0
  }

  /** `clear()`: every node is released, every header link becomes null,
      the size becomes 0 and the current level 1. */
  function Clear(sl: SkipList): (r: SkipList)
    ensures r.maxLevel == sl.maxLevel && r.size == 0 && r.currentLevel == 1
    ensures Elements(r) == {}
    ensures forall i :: 0 <= i < |r.lanes| ==> r.lanes[i] == []
    ensures Valid(sl) ==> Valid(r)
  {
    SkipList(sl.maxLevel, 1, 0, seq(|sl.lanes|, _ => []))
  }

  // ---------------------------------------------------------------------
  // The shared container contract

  /** On a valid list, every operation meets the shared container contract
      over the list's values, whatever coin flips `insert` draws. */
  lemma MeetsContainerContract(sl: SkipList, v: int, flips: seq<bool>)
    requires Valid(sl)
    ensures InsertContract(Elements(sl), v, Insert(sl, v, flips).changed, Elements(Insert(sl, v, flips).list))
    ensures RemoveContract(Elements(sl), v, Remove(sl, v).changed, Elements(Remove(sl, v).list))
    ensures SearchContract(Elements(sl), v, Search(sl, v))
    ensures ContainsContract(Elements(sl), v, Contains(sl, v))
    ensures MinContract(Elements(sl), Min(sl))
    ensures SizeContract(Elements(sl), Size(sl))
    ensures EmptyContract(Elements(sl), Empty(sl))
    ensures ClearContract(Elements(Clear(sl)))
  {
    InsertCorrect(sl, v, flips);
    RemoveCorrect(sl, v);
  }

  /** `max()` meets the shared container contract on a valid list. */
  method MaxMeetsContract(sl: SkipList) returns (r: Option<int>)
    requires Valid(sl)
    ensures MaxContract(Elements(sl), r)
  {
    r := Max(sl);
  }
}
