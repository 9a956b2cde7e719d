/** The descent loop as the skip list's `search` writes it, on a list whose
    current level is 1.  `lessThan` is computed once per level, before the
    `while`, by dereferencing the header's first link; the loop then either
    never moves or, when that first comparison holds, walks to the last
    node of the lane whatever its value.  The node after the one reached
    is then dereferenced without a null test.  `SkipLists.Descend` is the
    loop as intended. */
module SkipListDescent {
  import opened Container
  import opened SkipLanes
  import opened SkipLists

  /** How a run of the written code ends: by dereferencing a null node,
      or by returning a pointer (`None` for `nullptr`). */
  datatype Run = NullDeref | Returned(result: Option<int>)

  /** The bottom-lane slot the written loop stops at; `None` when computing
      `lessThan` already dereferences a null link. */
  function DescentAsWritten(lane: seq<int>, v: int): (r: Option<nat>)
    ensures r.Some? ==> r.value <= |lane|
    ensures r.None? <==> |lane| == 0
    ensures r.Some? ==> r.value == 0 || r.value == |lane|
    ensures r == Some(|lane|) <==> |lane| > 0 && lane[0] < v
  {
    if |lane| == 0 then None
    else if lane[0] < v then Some(|lane|)
    else Some(0)
  }

  /** `search(value)` as written, on a list whose only lane is `lane`. */
  function SearchAsWritten(lane: seq<int>, v: int): (r: Run)
    ensures r.Returned? && r.result.Some? ==> r.result.value == v && v in lane
  {
    match DescentAsWritten(lane, v)
    case None => NullDeref
    case Some(slot) =>
      if slot < |lane| then
        if !(v < lane[slot]) && !(lane[slot] < v) then Returned(Some(lane[slot]))
        else Returned(None)
      else NullDeref
  }

  /** The one-lane list holding 1 and 5. */
  function OneFive(): (sl: SkipList)
    ensures Valid(sl) && Elements(sl) == {1, 5}
  {
    var sl := SkipList(1, 1, 2, [[1, 5]]);
    assert Members([1, 5]) == {1, 5};
    sl
  }

  /** Searching 5 in the list {1, 5}: the first comparison (1 < 5) holds, so
      the written loop walks past 5 to the last node, and the code then
      dereferences the null link after it; the intended descent stops at
      node 1 and finds 5. */
  lemma SearchAsWrittenPassesMember()
    ensures SearchAsWritten([1, 5], 5) == NullDeref
    ensures DescentAsWritten([1, 5], 5) == Some(2)
    ensures PrefixBelow([1, 5], 5) == 1
    ensures Search(OneFive(), 5) == Some(5)
  {
    assert PrefixBelow([5], 5) == 0;
  }
}
