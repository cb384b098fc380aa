/**
  The shared status array: `create_status_array`, `init_status_array`,
  `get_status_array` and `set_status_element`.
 */
module StatusArray {
  import opened Optional
  import opened ManagerState

  /** `get_status_array`: the cells of the array at the time of the call, `None` for a NULL
      pointer. The caller receives a value, not an alias of the live array. */
  function GetStatusArray(m: Manager): (r: Option<seq<int>>)
    ensures r == m.statusArray
    ensures Valid(m) ==> (r.Some? ==> |r.value| == m.sizeofStatusArray)
    ensures Valid(m) ==> (r.None? ==> m.sizeofStatusArray == 0)
  {
    m.statusArray
  }

  /** The cells of the status array; an absent array has none. */
  function StatusCells(m: Manager): seq<int> {
    if m.statusArray.Some? then m.statusArray.value else []
  }

  predicate AllZero(cells: seq<int>) {
    forall i :: 0 <= i < |cells| ==> cells[i] == 0
  }

  /** Only the status array (and its recorded size) differs between `m` and `r`. */
  predicate OnlyStatusChanged(m: Manager, r: Manager) {
    r.(statusArray := m.statusArray, sizeofStatusArray := m.sizeofStatusArray) == m
  }

  /** `create_status_array`: frees the old array and allocates `pool_size` fresh cells.
      `malloc` does not clear memory, so the new cells hold whatever `contents` the
      allocator hands back; `mallocOk` is whether `malloc` returned non-NULL. */
  function CreateStatusArray(m: Manager, contents: seq<int>, mallocOk: bool): (o: Outcome)
    requires Valid(m) && |contents| == m.poolSize
    ensures o.Aborted? <==> !mallocOk
    ensures o.Continue? ==> Valid(o.state) && OnlyStatusChanged(m, o.state)
    ensures o.Continue? ==> o.state.sizeofStatusArray == m.poolSize && GetStatusArray(o.state) == Some(contents)
  {
    if !mallocOk then Aborted
    else Continue(m.(statusArray := Some(contents), sizeofStatusArray := m.poolSize))
  }

  /** `init_status_array`: rebuilds the array when `pool_size` differs from the recorded
      size, otherwise clears every cell in place (an absent array of size 0 stays absent). */
  function InitStatusArray(m: Manager, contents: seq<int>, mallocOk: bool): (o: Outcome)
    requires Valid(m) && |contents| == m.poolSize
    ensures o.Continue? ==> Valid(o.state) && OnlyStatusChanged(m, o.state)
    ensures o.Continue? ==> o.state.sizeofStatusArray == m.poolSize
    ensures o.Aborted? <==> m.poolSize != m.sizeofStatusArray && !mallocOk
    ensures m.poolSize != m.sizeofStatusArray && o.Continue? ==> GetStatusArray(o.state) == Some(contents)
    ensures m.poolSize == m.sizeofStatusArray ==>
              && o.Continue?
              && o.state.statusArray.Some? == m.statusArray.Some?
              && |StatusCells(o.state)| == m.poolSize
              && AllZero(StatusCells(o.state))
  {
    if m.poolSize != m.sizeofStatusArray then
      CreateStatusArray(m, contents, mallocOk)
    else if m.statusArray.Some? then
      Continue(m.(statusArray := Some(seq(m.sizeofStatusArray, _ => 0))))
    else
      Continue(m)
  }

  /** Two initialisations with no size change in between leave `pool_size` cleared cells,
      whatever the allocator returned the first time; the second one never allocates. */
  lemma InitTwiceClears(m: Manager, first: seq<int>, firstMallocOk: bool, second: seq<int>, secondMallocOk: bool)
    requires Valid(m) && |first| == m.poolSize && |second| == m.poolSize
    requires InitStatusArray(m, first, firstMallocOk).Continue?
    ensures var s := InitStatusArray(m, first, firstMallocOk).state;
            var o := InitStatusArray(s, second, secondMallocOk);
            && o.Continue?
            && o.state.sizeofStatusArray == m.poolSize
            && StatusCells(o.state) == seq(m.poolSize, _ => 0)
  {
    var s := InitStatusArray(m, first, firstMallocOk).state;
    var o := InitStatusArray(s, second, secondMallocOk);
    assert |StatusCells(o.state)| == m.poolSize && AllZero(StatusCells(o.state));
  }

  /** The bounds test of `set_status_element` as written: an upper bound only. */
  function StatusGuardAsWritten(index: int, size: int): (r: bool)
    ensures 0 <= index ==> (r <==> index < size)
    ensures index < 0 <= size ==> r
  {
    index < size
  }

  /** `set_status_element(index, status)` for the indices whose behaviour C defines: it
      writes `status` into cell `index` alone and answers TRUE when the index is below
      the recorded size, and answers FALSE, changing nothing, otherwise. */
  function SetStatusElement(m: Manager, index: int, status: int): (r: (Manager, bool))
    requires Valid(m) && 0 <= index
    ensures r.1 <==> index < m.sizeofStatusArray
    ensures r.1 ==> GetStatusArray(r.0) == Some(StatusCells(m)[index := status])
    ensures !r.1 ==> r.0 == m
    ensures Valid(r.0) && r.0.(statusArray := m.statusArray) == m
  {
    if StatusGuardAsWritten(index, m.sizeofStatusArray) then
      (m.(statusArray := Some(m.statusArray.value[index := status])), true)
    else
      (m, false)
  }

  /** The not-found answer of the self-index lookup, -1, passes the guard of
      `set_status_element` for every array, so the write lands before the first cell. */
  lemma NotFoundIndexPassesGuard(m: Manager)
    requires Valid(m)
    ensures StatusGuardAsWritten(-1, m.sizeofStatusArray)
  {
  }

  /** `set_status_element` with the lower bound checked as well: total in `index`,
      refusing every index outside `[0, size)` and agreeing with `set_status_element` as written on the rest. */
  function SetStatusElementChecked(m: Manager, index: int, status: int): (r: (Manager, bool))
    requires Valid(m)
    ensures r.1 <==> 0 <= index < m.sizeofStatusArray
    ensures r.1 ==> GetStatusArray(r.0) == Some(StatusCells(m)[index := status])
    ensures !r.1 ==> r.0 == m
    ensures 0 <= index ==> r == SetStatusElement(m, index, status)
  {
    if index < 0 then (m, false) else SetStatusElement(m, index, status)
  }
}
