/**
  The handle table: `create_threads`, `get_pool_size`, `_find_my_index` and `join_threads`.
  Creating an OS thread is modelled by the handle it yields (a parameter), joining one
  by the index of the table slot that is joined.
 */
module ThreadTable {
  import opened Optional
  import opened ManagerState
  import opened StopFlag

  /** `get_pool_size`. */
  function GetPoolSize(m: Manager): (r: int)
    ensures r == m.poolSize
    ensures Valid(m) ==> r >= 0
    ensures Valid(m) && m.threadPool.Some? ==> r == |m.threadPool.value|
  {
    m.poolSize
  }

  /** `create_threads(func, parameter, numThreads)`. `spawned` are the handles the OS gives
      the new threads, in creation order; `tableAllocated` is whether `malloc` returned
      non-NULL (if not, the process exits). The status array is left as it was. */
  function CreateThreads(m: Manager, numThreads: int, spawned: seq<Handle>, tableAllocated: bool): (o: Outcome)
    requires Valid(m)
    requires 0 <= numThreads && |spawned| == numThreads
    ensures o.Aborted? <==> !tableAllocated
    ensures o.Continue? ==> Valid(o.state) && Ready(o.state)
    ensures o.Continue? ==> GetPoolSize(o.state) == numThreads && o.state.threadPool == Some(spawned)
    ensures o.Continue? ==> ShouldStop(o.state) == 0
    ensures o.Continue? ==> o.state.statusArray == m.statusArray && o.state.sizeofStatusArray == m.sizeofStatusArray
  {
    if !tableAllocated then Aborted
    else Continue(m.(threadPool := Some(spawned), poolSize := numThreads, threadStop := 0, mutexes := Initialized))
  }

  /** Reference meaning of a self-index lookup: the first slot holding `t`, or -1. */
  function FirstIndex(table: seq<Handle>, t: Handle): (r: int)
    ensures -1 <= r < |table|
    ensures r == -1 <==> t !in table
    ensures r >= 0 ==> table[r] == t && forall j :: 0 <= j < r ==> table[j] != t
    decreases |table|
  {
    if |table| == 0 then -1
    else if table[0] == t then 0
    else
      var rest := FirstIndex(table[1..], t);
      if rest == -1 then -1 else rest + 1
  }

  /** `_find_my_index(thread)`: scans the first `get_pool_size()` slots and stops at the
      first handle equal to `thread`; reports -1 when the scan runs off the end. */
  method FindMyIndex(m: Manager, thread: Handle) returns (index: int)
    requires Valid(m) && m.threadPool.Some?
    ensures -1 <= index < GetPoolSize(m)
    ensures index == FirstIndex(m.threadPool.value, thread)
  {
    var size := GetPoolSize(m);
    var table := m.threadPool.value;
    var i := 0;
    while i < size
      invariant 0 <= i <= size
      invariant forall j :: 0 <= j < i ==> table[j] != thread
    {
      if table[i] == thread {
        break;
      }
      i := i + 1;
    }
    if i >= size {
      index := -1;
    } else {
      index := i;
    }
  }

  /** No handle occurs twice in the table (the OS never gives two live threads one id). */
  predicate Distinct(table: seq<Handle>) {
    forall i, j :: 0 <= i < j < |table| ==> table[i] != table[j]
  }

  /** Every worker of a table without repeated handles finds its own slot, so no two
      workers find the same index; and a handle outside the table finds none. */
  lemma IndexConsistency(table: seq<Handle>, i: int, j: int)
    requires Distinct(table)
    requires 0 <= i < |table| && 0 <= j < |table|
    ensures FirstIndex(table, table[i]) == i
    ensures i != j ==> FirstIndex(table, table[i]) != FirstIndex(table, table[j])
  {
  }

  /** Whether the status snapshot marks slot `k` for joining (no snapshot: every slot). */
  predicate Joinable(tStatus: Option<seq<int>>, k: nat)
    requires tStatus.Some? ==> k < |tStatus.value|
  {
    tStatus.None? || tStatus.value[k] != 0
  }

  /** The snapshot, when given, has a cell for each of the first `n` slots. */
  predicate CoversPool(tStatus: Option<seq<int>>, n: int) {
    tStatus.Some? ==> n <= |tStatus.value|
  }

  /** The partial-join policy: the slots below `n` that get joined, in the order they are joined. */
  function JoinSelection(n: nat, tStatus: Option<seq<int>>): (joined: seq<nat>)
    requires CoversPool(tStatus, n)
    ensures forall k: nat :: k in joined <==> k < n && Joinable(tStatus, k)
    ensures forall a, b :: 0 <= a < b < |joined| ==> joined[a] < joined[b]
  {
    if n == 0 then []
    else
      var prefix := JoinSelection(n - 1, tStatus);
      assert forall a :: 0 <= a < |prefix| ==> prefix[a] in prefix;
      prefix + (if Joinable(tStatus, n - 1) then [n - 1] else [])
  }

  /** Without a snapshot every slot is joined, from 0 up to `n - 1`. */
  lemma {:induction false} JoinAllWithoutSnapshot(n: nat)
    ensures |JoinSelection(n, None)| == n
    ensures forall k :: 0 <= k < n ==> JoinSelection(n, None)[k] == k
  {
    if n > 0 {
      JoinAllWithoutSnapshot(n - 1);
    }
  }

  /** Of five workers with 1 and 3 marked dead, exactly 0, 2 and 4 are joined. */
  lemma JoinSkipsHungWorkers()
    ensures JoinSelection(5, Some([1, 0, 1, 0, 1])) == [0, 2, 4]
  {
  }

  /** `join_threads(tStatus)`: walks the slots in increasing order, joining each one the
      snapshot marks non-zero (every one when `tStatus` is NULL) and skipping the rest;
      then frees the handle table and destroys the mutexes. `pool_size` and the status
      array are kept, so the manager is unusable until the next `create_threads`. */
  method JoinThreads(m: Manager, tStatus: Option<seq<int>>) returns (r: Manager, joined: seq<nat>)
    requires Valid(m) && m.threadPool.Some?
    requires CoversPool(tStatus, m.poolSize)
    ensures joined == JoinSelection(m.poolSize, tStatus)
    ensures r.threadPool.None? && r.mutexes == Destroyed
    ensures r.(threadPool := m.threadPool, mutexes := m.mutexes) == m
    ensures Valid(r) && !Ready(r)
  {
    joined := [];
    var i := 0;
    while i < m.poolSize
      invariant 0 <= i <= m.poolSize
      invariant joined == JoinSelection(i, tStatus)
    {
      if tStatus.Some? {
        if tStatus.value[i] != 0 {
          joined := joined + [i];
        }
      } else {
        joined := joined + [i];
      }
      i := i + 1;
    }
    r := m.(threadPool := None, mutexes := Destroyed);
  }
}
