# Thread-manager bookkeeping of pthread-lib, in Dafny

pthread-lib wraps POSIX threads. Its thread manager (`trunk/multi_thread.c`) keeps a few
process-wide globals:

- the handle table `thread_pool`, with `pool_size` entries;
- the cooperative stop flag `thread_stop`;
- the shared `status_array`, whose length is tracked in `sizeof_status_array`.

The stop-flag, pool-size and status-array operations each run under a mutex;
`create_threads` and `join_threads` touch the globals without one. This project models those globals as one
immutable record, `ManagerState.Manager`. Each public operation becomes one atomic transition
on that record:

- `ManagerState`: the record, its invariant `Valid`, the initial values, and the `Outcome` type. `Aborted` stands for the process `exit()` after a failed `malloc`.
- `StopFlag`: `stop_threads`, `should_stop`, `set_stop`.
- `ThreadTable`: `create_threads`, `get_pool_size`, `_find_my_index`, and the partial-join policy of `join_threads`.
- `StatusArray`: `create_status_array`, `init_status_array`, `get_status_array`, `set_status_element`.
- `Shutdown`: how cells written through `set_status_element` decide which workers `join_threads` waits for.
- `TimedWait`: `timed_wait` and `timed_wait_milli`, up to the deadline they hand to `pthread_cond_timedwait`.

The OS and the allocator appear only as parameters:

- a thread handle (`pthread_t`) is an opaque `Handle`, compared only for equality (`pthread_equal`);
- creating threads means receiving their handles (`spawned`);
- joining means selecting the slot indices to join, in order;
- `malloc` success is a boolean;
- the uninitialised cells `malloc` returns are an arbitrary `contents` sequence;
- `gettimeofday` is a `ClockReading` (return code and time).

Points of the code that shape the model:

- `create_status_array` `malloc`s without clearing the memory (line 486), so after a resize `InitStatusArray` leaves the allocator's contents. Only a second call with no size change in between gives all zeros (`InitTwiceClears`).
- `thread_stop` is a C `int` (line 49): `set_stop` stores any value (line 450), and `should_stop` returns it unchanged (line 431).
- `join_threads` does not reset `pool_size` and does not touch the status array. It frees the table and destroys the mutexes, which leaves the manager unusable until the next `create_threads`.

## Model

| member | source | states |
|---|---|---|
| `ManagerState.Initial` | trunk/multi_thread.c:34-49 | the load-time state satisfies the manager invariant: pool size 1, no handle table, no status array with recorded length 0, stop flag clear, not ready for use |
| `StopFlag.ShouldStop` | trunk/multi_thread.c:427-435 | answers the stored flag: writing the answer back leaves the state unchanged |
| `StopFlag.StopThreads` | trunk/multi_thread.c:411-415 | afterwards `should_stop` answers 1; every other field is unchanged; the invariant holds after exactly when it held before |
| `StopFlag.SetStop` | trunk/multi_thread.c:448-452 | afterwards `should_stop` answers exactly the stored value; nothing else changes |
| `StopFlag.StopThreadsIsSetStopOne` | trunk/multi_thread.c:411-452 | stopping is the same transition as `set_stop(1)` |
| `StopFlag.StopThreadsIdempotent` | trunk/multi_thread.c:411-415 | stopping twice is the same as stopping once |
| `StopFlag.SetStopLastWins` | trunk/multi_thread.c:448-452 | of two `set_stop` calls the second decides the state; repeating a value is idempotent |
| `ThreadTable.GetPoolSize` | trunk/multi_thread.c:459-466 | answers the stored `pool_size` (1 at load time, and the old size after `join_threads`); in a valid state it is non-negative and equals the length of a live handle table |
| `ThreadTable.CreateThreads` | trunk/multi_thread.c:83-112 | aborts exactly when the table allocation fails; otherwise the state is valid and ready, pool size is the requested count, the table holds the spawned handles, the stop flag is reset to 0 even if it was set, and the status array is untouched |
| `ThreadTable.FirstIndex` | trunk/multi_thread.c:303-323 | the lookup result lies in `[-1, size)`; it is -1 exactly when the handle is absent, and otherwise it is the first slot holding the handle |
| `ThreadTable.FindMyIndex` | trunk/multi_thread.c:303-323 | the scan with early break returns a value in `[-1, pool_size)` equal to the first matching slot, or -1 if none matches |
| `ThreadTable.IndexConsistency` | trunk/multi_thread.c:298-323 | in a table without repeated handles, each worker finds its own slot, and two different workers never find the same index |
| `ThreadTable.JoinSelection` | trunk/multi_thread.c:142-173 | the joined indices are exactly the slots below `pool_size` that the snapshot marks non-zero (all of them without a snapshot), in strictly increasing order |
| `ThreadTable.JoinAllWithoutSnapshot` | trunk/multi_thread.c:148-170 | with a NULL snapshot, the joins are `0, 1, …, pool_size-1` in that order |
| `ThreadTable.JoinSkipsHungWorkers` | trunk/multi_thread.c:138-173 | of five workers with 1 and 3 marked dead, exactly 0, 2, 4 are joined |
| `ThreadTable.JoinThreads` | trunk/multi_thread.c:142-181 | the loop joins exactly the selection above; afterwards the table is released and the mutexes destroyed; pool size, stop flag and status array are kept; the state stays valid but is not ready for use |
| `StatusArray.GetStatusArray` | trunk/multi_thread.c:529-537 | answers the stored array (its cells at the time of the call, or none for NULL); in a valid state it has exactly `sizeof_status_array` cells, and is absent only when that size is 0 |
| `StatusArray.CreateStatusArray` | trunk/multi_thread.c:478-497 | aborts exactly when `malloc` fails; otherwise the recorded size becomes `pool_size`, the cells are whatever the allocator returned, and only the status fields change |
| `StatusArray.InitStatusArray` | trunk/multi_thread.c:508-520 | on a size change the array is rebuilt with `pool_size` unspecified cells, aborting only if that allocation fails; with no size change it never aborts, keeps the length, and clears every cell; only the status fields change |
| `StatusArray.InitTwiceClears` | trunk/multi_thread.c:508-520 | two initialisations with no size change in between give `pool_size` zero cells, whatever the first allocation returned |
| `StatusArray.SetStatusElement` | trunk/multi_thread.c:550-563 | for a non-negative index: answers TRUE exactly when the index is below the recorded size, and then only that cell becomes the new value; on FALSE the state is unchanged |
| `StatusArray.StatusGuardAsWritten` | trunk/multi_thread.c:555 | on non-negative indices the guard is exactly the upper-bound check; every negative index passes it whenever the size is non-negative |
| `StatusArray.NotFoundIndexPassesGuard` | trunk/multi_thread.c:555 | the lookup's not-found answer -1 passes the upper-bound-only guard for every array |
| `StatusArray.SetStatusElementChecked` | trunk/multi_thread.c:550-563 | the guarded write with the lower bound added answers TRUE exactly for indices in `[0, size)`, refuses negatives without writing, and agrees with `set_status_element` as written on all non-negative indices |
| `Shutdown.Report` | trunk/multi_thread.c:550-563 | after each listed worker writes a mark into its cell, exactly the listed cells hold the mark and the rest are unchanged; only the status array changes |
| `Shutdown.JoinSelectsReporters` | trunk/multi_thread.c:138-173 | starting from a cleared array covering the pool, joining with that array selects exactly the workers that reported a non-zero mark |
| `TimedWait.Wrap32` | trunk/multi_thread.c:270 | storing into a 32-bit `int` gives the value in the 32-bit range congruent to the result modulo 2^32 (two's-complement wrap), unchanged when the result already fits |
| `TimedWait.SecondsDeadline` | trunk/multi_thread.c:212-215 | the seconds deadline is a valid `timespec` lying exactly `secs` seconds after the clock reading |
| `TimedWait.TimedWaitSeconds` | trunk/multi_thread.c:191-232 | returns before the wait exactly when the clock read fails, with `gettimeofday`'s code; otherwise calls `pthread_cond_timedwait` with the normalised deadline `secs` seconds after the reading (already past for negative `secs`) |
| `TimedWait.MilliDeadlineAsWritten` | trunk/multi_thread.c:270-272 | the as-written deadline keeps the clock's seconds, and for 1 to 2147 ms it lies `ms` milliseconds after the reading minus 999 nanoseconds per microsecond of the reading |
| `TimedWait.TimedWaitMilli` | trunk/multi_thread.c:242-290 | a non-positive duration returns 0; otherwise a failing clock read returns `gettimeofday`'s code; it returns before the wait exactly in those two cases, and otherwise calls `pthread_cond_timedwait` with the as-written deadline |
| `TimedWait.NonPositiveWaitIgnoresClock` | trunk/multi_thread.c:248-250 | for a non-positive duration the result is 0 whatever the clock would have said, so the clock is never consulted |
| `TimedWait.MilliDeadlineNotNormalised` | trunk/multi_thread.c:268-272 | for 1000 to 2147 ms, the as-written deadline has a nanosecond field of a full second or more |
| `TimedWait.MilliDeadlineInPast` | trunk/multi_thread.c:271-272 | half way through a second, a 1 ms wait gets a deadline before the clock reading |
| `TimedWait.MilliScaleOverflows` | trunk/multi_thread.c:270 | at 2148 ms the scaling to nanoseconds exceeds the `int` range, and the wrapped nanosecond field is negative |
| `TimedWait.MilliDeadline` | trunk/multi_thread.c:268-272 | the corrected deadline is a valid `timespec` lying exactly `ms` milliseconds after the clock reading |
| `TimedWait.TimedWaitMilliFixed` | trunk/multi_thread.c:242-290 | the same guard and clock handling as `timed_wait_milli` as written, but the deadline it waits for is valid and exactly `ms` milliseconds after the reading |

## Left out

- Thread creation and joining themselves (`pthread_create`, `pthread_join`): creation is the handles received, joining is the index sequence selected. Failure of either (the `CHECK_STATUS` abort) is not modelled.
- Mutex init, lock, unlock and destroy are not modelled, and neither is the abort when one fails. Every public operation is treated as one atomic step. The `mutexes` field only records the life cycle.
- `create_threads` writes `pool_size` and `thread_pool` before its mutexes exist (lines 88-91; they are created at line 99), and `thread_stop` at line 102 without taking `stop_mutex`, and `join_threads` reads the table and frees it without a lock (lines 154-177). Modelling each as one step assumes no other thread calls into the manager meanwhile.
- `StatusArray.GetStatusArray`: returns the cells as a value, not the live pointer of line 533. Later `set_status_element` writes, an in-place clear, or the free in `create_status_array` would show through that pointer in C but not in the model. So `JoinThreads` must be given the cells as `join_threads` reads them.
- The reads of `pool_size` and `sizeof_status_array` that `init_status_array` makes outside any lock are not modelled: they matter only under concurrency.
- `ThreadTable.CreateThreads`: requires a non-negative thread count. For a negative count, the C size computation wraps to an enormous `size_t`, `malloc` returns NULL, and the process exits at line 95.
- `ThreadTable.FindMyIndex` and `ThreadTable.JoinThreads` require a live handle table. Before `create_threads`, or after `join_threads`, the C code would read a NULL or freed pointer when it indexes the table; and even when it does not (pool size 0, or an all-zero snapshot), it would lock or destroy mutexes that are uninitialised or already destroyed (lines 179, 308).
- `ThreadTable.JoinThreads` requires a snapshot with at least `pool_size` cells. Reading past a shorter C array is undefined.
- `StatusArray.SetStatusElement`: requires a non-negative index. C gives no meaning to the write `status_array[-1]` that a negative index reaches; see Findings.
- The wait in `timed_wait` and `timed_wait_milli` (`pthread_cond_timedwait`) is not modelled, and neither is its return code: both depend on wall-clock time and the OS. The model stops at the deadline the wait is given.
- `TimedWait.MilliDeadlineAsWritten`: C leaves signed overflow undefined. The model takes the two's-complement wrap that common targets produce.
- Logging and `printf` output are not modelled.
- The signal handler (`_signal_handler_function`, `_handle_ping_signal`), the task queue and the thread pool are not part of this model: only their prototypes appear in `trunk/multi_thread.c`. `Shutdown` models only the status-array writes a responding worker would make.
- The unused global `thread_hold` is not modelled.

## Findings

| source | as written | input that shows it | evidently intended | confidence | as-written member | corrected member |
|---|---|---|---|---|---|---|
| trunk/multi_thread.c:271-272 | `tv_nsec = tv_usec + ms*1000000`: microseconds added as nanoseconds, no carry into `tv_sec` | `ms = 1000` (any clock): `tv_nsec >= 10^9`, a deadline `pthread_cond_timedwait` rejects; `ms = 1` at `tv_usec = 500000`: deadline before now | deadline `ms` milliseconds after the reading, normalised | high (not executed) | `TimedWait.MilliDeadlineNotNormalised` | `TimedWait.MilliDeadline` |
| trunk/multi_thread.c:270 | `wait_secs *= 1000000` in a 32-bit `int` | `ms = 2148`: the product exceeds `INT_MAX`; wrapped, the nanosecond field is negative | scaling without overflow | high (not executed) | `TimedWait.MilliScaleOverflows` | `TimedWait.TimedWaitMilliFixed` |
| trunk/multi_thread.c:555 | bounds test `index < sizeof_status_array` only | `set_status_element(-1, v)`, with -1 the not-found answer of `_find_my_index`: passes the test and writes before the array | in-bounds means `0 <= index < size` | medium (not executed) | `StatusArray.NotFoundIndexPassesGuard` | `StatusArray.SetStatusElementChecked` |
