/**
  The process-wide bookkeeping of the thread manager, gathered into one immutable record.
  Each public operation is modelled as a single transition from one `Manager` value to the
  next. The stop, pool-size and status operations run under a mutex; `create_threads` and
  `join_threads` take none, so treating them as one step assumes no concurrent caller.
 */
module ManagerState {
  import opened Optional

  /** An opaque thread handle (`pthread_t`). The manager only ever compares handles
      with `pthread_equal`, which is modelled as `==`. */
  datatype Handle = Handle(id: nat)

  /** Life cycle of the four manager mutexes: never initialised before the first
      `create_threads`, initialised by it, destroyed by `join_threads`. */
  datatype Mutexes = Uninitialized | Initialized | Destroyed

  /** The global variables of the manager. `threadStop` is a C `int`: `set_stop` stores
      whatever it is given and `should_stop` hands it back unchanged. */
  datatype Manager = Manager(
    threadPool: Option<seq<Handle>>,
    poolSize: int,
    threadStop: int,
    statusArray: Option<seq<int>>,
    sizeofStatusArray: int,
    mutexes: Mutexes)

  /** Result of an operation that may `exit()` the process on an allocation failure. */
  datatype Outcome = Continue(state: Manager) | Aborted

  /** What every reachable manager state satisfies: the recorded sizes are never negative,
      an allocated handle table has `poolSize` entries, and an allocated status array has
      exactly `sizeofStatusArray` cells (an absent one records length 0). */
  predicate Valid(m: Manager) {
    && m.poolSize >= 0
    && m.sizeofStatusArray >= 0
    && (m.threadPool.Some? ==> |m.threadPool.value| == m.poolSize)
    && (m.statusArray.Some? ==> |m.statusArray.value| == m.sizeofStatusArray)
    && (m.statusArray.None? ==> m.sizeofStatusArray == 0)
  }

  /** A manager whose handle table is live: between `create_threads` and `join_threads`. */
  predicate Ready(m: Manager) {
    m.threadPool.Some? && m.mutexes == Initialized
  }

  /** The values of the globals when the library is loaded. */
  function Initial(): (m: Manager)
    ensures Valid(m) && !Ready(m)
    ensures m.poolSize == 1 && m.threadStop == 0
    ensures m.threadPool.None? && m.statusArray.None? && m.sizeofStatusArray == 0
  {
    Manager(None, 1, 0, None, 0, Uninitialized)
  }
}
