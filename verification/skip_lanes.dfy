/** One express lane of the skip list: the values reachable from the
    header by following `forward[i]` links, in link order.  A position in a
    lane is a "slot": slot 0 is the header, slot k + 1 is the k-th node of
    the lane, and the node a slot's `forward[i]` link points at is the
    lane's element at that same index (or null past the end). */
module SkipLanes {

  /** Following a lane's links visits strictly increasing values. */
  ghost predicate Sorted(lane: seq<int>)
  {
    forall j, k :: 0 <= j < k < |lane| ==> lane[j] < lane[k]
  }

  /** How many leading elements of the lane are below `v`: the slot of the
      last node a descent on this lane stops at. */
  function PrefixBelow(lane: seq<int>, v: int): (n: nat)
    ensures n <= |lane|
    ensures forall j :: 0 <= j < n ==> lane[j] < v
    ensures n < |lane| ==> !(lane[n] < v)
  {
    if |lane| == 0 || !(lane[0] < v) then 0
    else 1 + PrefixBelow(lane[1..], v)
  }

  /** On a sorted lane the prefix below `v` is exactly the set of positions
      holding smaller values. */
  lemma PrefixBelowSplits(lane: seq<int>, v: int)
    requires Sorted(lane)
    ensures forall j :: 0 <= j < |lane| ==> (j < PrefixBelow(lane, v) <==> lane[j] < v)
  {
    var n := PrefixBelow(lane, v);
    forall j | 0 <= j < |lane| && n <= j
      ensures !(lane[j] < v)
    {
      if n < j { assert lane[n] < lane[j]; }
    }
  }

  /** A sorted lane holds `v` exactly when the element after the prefix
      below `v` is `v`. */
  lemma PrefixBelowFinds(lane: seq<int>, v: int)
    requires Sorted(lane)
    ensures v in lane <==> PrefixBelow(lane, v) < |lane| && lane[PrefixBelow(lane, v)] == v
  {
    PrefixBelowSplits(lane, v);
  }

  /** A member `x` below `v` sits inside the prefix below `v`, so the slot
      of its node is at most that prefix's length. */
  lemma PrefixBelowMember(lane: seq<int>, x: int, v: int)
    requires Sorted(lane) && x in lane && x < v
    ensures PrefixBelow(lane, x) < |lane| && lane[PrefixBelow(lane, x)] == x
    ensures PrefixBelow(lane, x) + 1 <= PrefixBelow(lane, v)
  {
    PrefixBelowFinds(lane, x);
    PrefixBelowSplits(lane, v);
  }

  /** The lane after a node is linked in at slot `k`. */
  function InsertAt(lane: seq<int>, k: nat, v: int): (r: seq<int>)
    requires k <= |lane|
    ensures |r| == |lane| + 1 && r[k] == v
    ensures forall j :: 0 <= j < k ==> r[j] == lane[j]
    ensures forall j :: k < j < |r| ==> r[j] == lane[j - 1]
  {
    lane[..k] + [v] + lane[k..]
  }

  /** Linking a value not in the lane in after the prefix below it keeps
      the lane sorted and adds exactly that value. */
  lemma InsertAtKeepsOrder(lane: seq<int>, v: int)
    requires Sorted(lane) && v !in lane
    ensures Sorted(InsertAt(lane, PrefixBelow(lane, v), v))
    ensures forall x :: x in InsertAt(lane, PrefixBelow(lane, v), v) <==> x in lane || x == v
  {
    var k := PrefixBelow(lane, v);
    var r := InsertAt(lane, k, v);
    PrefixBelowSplits(lane, v);
    forall j, i | 0 <= j < i < |r| ensures r[j] < r[i] {
      if i < k {
      } else if i == k {
        assert r[j] == lane[j];
      } else if j < k {
        assert lane[j] < v;
        assert r[i] == lane[i - 1];
        assert v <= lane[i - 1];
      } else if j == k {
        assert r[i] == lane[i - 1] && v <= lane[i - 1] && lane[i - 1] != v;
      } else {
        assert r[j] == lane[j - 1] && r[i] == lane[i - 1];
      }
    }
    forall x | x in lane ensures x in r {
      var j :| 0 <= j < |lane| && lane[j] == x;
      if j < k { assert r[j] == x; } else { assert r[j + 1] == x; }
    }
    forall x | x in r ensures x in lane || x == v {
      var j :| 0 <= j < |r| && r[j] == x;
      if j < k { assert lane[j] == x; } else if j > k { assert lane[j - 1] == x; }
    }
  }

  /** The lane after the node at index `k` is unlinked. */
  function RemoveAt(lane: seq<int>, k: nat): (r: seq<int>)
    requires k < |lane|
    ensures |r| + 1 == |lane|
    ensures forall j :: 0 <= j < k ==> r[j] == lane[j]
    ensures forall j :: k <= j < |r| ==> r[j] == lane[j + 1]
  {
    lane[..k] + lane[k + 1..]
  }

  /** Unlinking a node from a sorted lane keeps it sorted and drops exactly
      that node's value. */
  lemma RemoveAtKeepsOrder(lane: seq<int>, k: nat)
    requires Sorted(lane) && k < |lane|
    ensures Sorted(RemoveAt(lane, k))
    ensures forall x :: x in RemoveAt(lane, k) <==> x in lane && x != lane[k]
  {
    var r := RemoveAt(lane, k);
    forall j, i | 0 <= j < i < |r| ensures r[j] < r[i] {
      if i < k {
      } else if j < k {
        assert r[i] == lane[i + 1];
      } else {
        assert r[j] == lane[j + 1] && r[i] == lane[i + 1];
      }
    }
    forall x | x in lane && x != lane[k] ensures x in r {
      var j :| 0 <= j < |lane| && lane[j] == x;
      if j < k { assert r[j] == x; } else { assert r[j - 1] == x; }
    }
    forall x | x in r ensures x in lane && x != lane[k] {
      var j :| 0 <= j < |r| && r[j] == x;
      if j < k {
        assert lane[j] == x && lane[j] < lane[k];
      } else {
        assert lane[j + 1] == x && lane[k] < lane[j + 1];
      }
    }
  }

  /** The values of a lane as a set. */
  function Members(lane: seq<int>): set<int>
  {
    set x | x in lane
  }

  /** A sorted lane holds as many distinct values as it has nodes. */
  lemma {:induction false} SortedCardinality(lane: seq<int>)
    requires Sorted(lane)
    ensures |Members(lane)| == |lane|
  {
    if |lane| > 0 {
      var rest := lane[1..];
      assert Sorted(rest);
      SortedCardinality(rest);
      assert Members(lane) == {lane[0]} + Members(rest);
      assert lane[0] !in Members(rest) by {
        forall j | 0 <= j < |rest| ensures rest[j] != lane[0] {
          assert rest[j] == lane[j + 1];
        }
      }
    }
  }
}
