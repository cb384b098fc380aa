/**
  How the status array feeds the partial join: workers that report themselves alive
  by writing a non-zero mark into their own cell are exactly the ones `join_threads`
  waits for when given that array; the silent ones are skipped.
 */
module Shutdown {
  import opened Optional
  import opened ManagerState
  import opened ThreadTable
  import opened StatusArray

  /** Each index in `reporters`, in turn, is written with `mark` by `set_status_element`. */
  function Report(m: Manager, reporters: seq<nat>, mark: int): (r: Manager)
    requires Valid(m)
    ensures Valid(r) && r.(statusArray := m.statusArray) == m
    ensures r.statusArray.Some? == m.statusArray.Some?
    ensures forall k :: 0 <= k < m.sizeofStatusArray ==>
              StatusCells(r)[k] == if k in reporters then mark else StatusCells(m)[k]
    decreases |reporters|
  {
    if |reporters| == 0 then m
    else Report(SetStatusElement(m, reporters[0], mark).0, reporters[1..], mark)
  }

  /** Starting from a cleared array that covers the pool, after the reporters have written
      a non-zero mark, joining with the array selects precisely the reporters. */
  lemma JoinSelectsReporters(m: Manager, reporters: seq<nat>, mark: int)
    requires Valid(m) && m.statusArray.Some? && m.sizeofStatusArray == m.poolSize
    requires AllZero(StatusCells(m)) && mark != 0
    requires forall i :: 0 <= i < |reporters| ==> reporters[i] < m.poolSize
    ensures CoversPool(GetStatusArray(Report(m, reporters, mark)), m.poolSize)
    ensures forall k: nat ::
              k in JoinSelection(m.poolSize, GetStatusArray(Report(m, reporters, mark))) <==> k in reporters
  {
  }
}
