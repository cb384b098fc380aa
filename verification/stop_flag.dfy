/** The cooperative stop flag: `stop_threads`, `should_stop` and `set_stop`. */
module StopFlag {
  import opened ManagerState

  /** `should_stop`: the flag exactly as last stored, so writing the answer back changes nothing. */
  function ShouldStop(m: Manager): (r: int)
    ensures m.(threadStop := r) == m
  {
    m.threadStop
  }

  /** `stop_threads`: raises the flag to 1 and touches nothing else. */
  function StopThreads(m: Manager): (r: Manager)
    ensures ShouldStop(r) == 1
    ensures r.(threadStop := m.threadStop) == m
    ensures Valid(r) <==> Valid(m)
  {
    m.(threadStop := 1)
  }

  /** `set_stop(stop)`: stores `stop` (any int, so a pool can be resumed as well as stopped). */
  function SetStop(m: Manager, stop: int): (r: Manager)
    ensures ShouldStop(r) == stop
    ensures r.(threadStop := m.threadStop) == m
    ensures Valid(r) <==> Valid(m)
  {
    m.(threadStop := stop)
  }

  /** Stopping is `set_stop(1)`. */
  lemma StopThreadsIsSetStopOne(m: Manager)
    ensures StopThreads(m) == SetStop(m, 1)
  {
  }

  /** Stopping twice is stopping once. */
  lemma StopThreadsIdempotent(m: Manager)
    ensures StopThreads(StopThreads(m)) == StopThreads(m)
  {
  }

  /** Setting the same value twice is setting it once, and of two settings the last one wins. */
  lemma SetStopLastWins(m: Manager, a: int, b: int)
    ensures SetStop(SetStop(m, a), b) == SetStop(m, b)
    ensures SetStop(SetStop(m, a), a) == SetStop(m, a)
  {
  }
}
