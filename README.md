# MinHeapTimer in Dafny

A verified model of `MinHeapTimer<T>`, the timer engine of the C++ header
`MinHeapTimer.hpp`. The engine keeps its timer nodes in a binary min-heap
ordered by expiration time (`_heap`). Every node records its own slot in
the heap (`idx`), and a `std::map` (`_map`) finds a node by id, so a timer
can be cancelled without a search. Ids come from a counter (`_count`) that
is pre-incremented, so the first id is 1.

The model covers:

- scheduling a timer, which pushes it and sifts it up;
- cancelling by id, which moves the last slot into the hole, sifts it down
  over the slots before the last and, if it did not move, sifts it up;
- the expiration sweep, which fires every due timer earliest first,
  deletes one-shot timers and re-inserts repeating ones under a fresh id;
- the heap snapshot;
- the shortest-interval tracker of the polling subclass
  `MinHeapTimerLoop`, whose tenth is the poll period.

Layout:

- `timer_node.dfy` (module `TimerNode`): the node record and the timer as
  seen from outside (`Node`, `Timer`).
- `heap_order.dfy` (module `HeapOrder`): heap order on a sequence of nodes,
  and one lemma per sift-up or sift-down step.
- `sweep.dfy` (module `Sweep`): the bookkeeping of a sweep over the map
  from id to timer. It defines which timers are due, the firing log, the
  ids handed to re-armed timers, and what a sweep leaves behind.
- `min_heap_timer.dfy` (module `TimerEngine`): the sift loops as methods on
  the heap and slot table. It also holds the class `MinHeapTimer`, whose
  fields are:
  - `heap`: the vector;
  - `slot`: the `idx` of every node in `_map`, by id;
  - `count`: the counter.
  Its methods change those fields in place. `Valid()` states the engine's
  invariant: every node's `idx` is its slot, the table holds exactly the
  heap's ids, the heap is ordered, and every live id is at most `count`.
- `min_heap_timer_loop.dfy` (module `TimerLoop`): the class
  `MinHeapTimerLoop` with the tracker `minTimingMs`, and the running
  minimum it keeps.

The clock is a parameter. `now` is the reading at which a timer is
scheduled or at which a sweep compares expirations. `rearmAt` (at least
`now`) is the reading at which a sweep re-arms repeating timers. Callbacks
are not modelled: every due node a sweep pops is appended to the sequence
it returns, whether or not the node has a callback to invoke.

## Model

| member | source | states |
|---|---|---|
| HeapOrder.Parent | MinHeapTimer.hpp:232 | the parent slot `(c - 1) / 2` of a non-root slot c is below c, and c is one of its two children |
| HeapOrder.Swap | MinHeapTimer.hpp:220 | `std::swap` of two slots: the two entries are exchanged and every other slot is unchanged |
| HeapOrder.RootIsMinimum | MinHeapTimer.hpp:106-111 | in an ordered heap the front node expires no later than the node in any slot, so checking the front alone decides whether anything is due |
| HeapOrder.PrefixOrdered | MinHeapTimer.hpp:265 | dropping the last slot (`pop_back`) keeps the heap ordered |
| HeapOrder.PushReady | MinHeapTimer.hpp:175-176 | after `push_back` on an ordered heap, only the edge from the new last slot to its parent can be out of order |
| HeapOrder.SiftUpStep | MinHeapTimer.hpp:230-241 | one sift-up swap with an earlier parent moves the single out-of-order edge up to the parent's slot |
| HeapOrder.SiftUpDone | MinHeapTimer.hpp:231-234 | sift-up that stops at the root or at a parent that is no later leaves the heap ordered |
| HeapOrder.RemoveReady | MinHeapTimer.hpp:252-258 | moving the last node into slot idx and cutting off the last slot breaks heap order only around idx |
| HeapOrder.SiftDownStep | MinHeapTimer.hpp:203-223 | swapping with the earlier child that is strictly earlier moves the out-of-order spot down to that child's slot |
| HeapOrder.SiftDownDone | MinHeapTimer.hpp:203-218 | sift-down that stops with no earlier child leaves the heap ordered if the node moved, and otherwise only its parent edge may be out of order |
| TimerEngine.LinkedView | MinHeapTimer.hpp:85-86 | when heap and table are linked, the live timers are exactly the ids in the table, each seen with its own node's times |
| TimerEngine.SwapLinked | MinHeapTimer.hpp:220-222 | swapping two slots and rewriting both nodes' `idx` keeps every node's `idx` equal to its slot, with the same ids |
| TimerEngine.SwapView | MinHeapTimer.hpp:237-239 | the same swap leaves every live timer unchanged under its id |
| TimerEngine.SwapPrefix | MinHeapTimer.hpp:220 | a swap inside the slots before last commutes with cutting off the last slot |
| TimerEngine.PushLinked | MinHeapTimer.hpp:170-177 | appending a node with a fresh id at slot `_heap.size()` and entering it in the table adds exactly that timer and keeps the heap linked |
| TimerEngine.DetachLinked | MinHeapTimer.hpp:252-257 | moving the last node into the removed node's slot and rewriting its `idx` removes exactly that id from the live timers; the last slot then lies outside the heap |
| TimerEngine.DetachLastLinked | MinHeapTimer.hpp:255-266 | removing the node in the last slot removes exactly its id and keeps the rest linked |
| TimerEngine.TruncateLinked | MinHeapTimer.hpp:265 | `pop_back` of the slot outside the heap keeps the heap linked and the live timers unchanged |
| TimerEngine.LessThan | MinHeapTimer.hpp:152-154 | true means slot lhs expires strictly before slot rhs, false means slot rhs expires no later than slot lhs |
| TimerEngine.RootEarliest | MinHeapTimer.hpp:108-111 | the front node is a live timer and expires no later than any live timer |
| TimerEngine.SiftUp | MinHeapTimer.hpp:230-242 | sift-up from pos over a heap that is out of order only at pos leaves it ordered and linked, with the same timers under the same ids, and the slots from n on untouched; parent `(0 - 1) / 2` truncates to 0 |
| TimerEngine.SiftDownOnce | MinHeapTimer.hpp:203-224 | one pass of the sift-down loop compares only slots below last; it either stops, leaving the heap ordered or ready for sift-up, or swaps and moves strictly down, with the same timers |
| TimerEngine.SiftDown | MinHeapTimer.hpp:199-227 | `_shiftDown` never touches slot last; it returns true exactly when the node ends in a slot after pos, and the heap is then ordered; when it returns false nothing changed |
| TimerEngine.Push | MinHeapTimer.hpp:175-177 | push, sift-up and table insert grow the heap by one and add exactly the new timer under its id, leaving the heap ordered and linked |
| TimerEngine.MinHeapTimer.constructor | MinHeapTimer.hpp:34-37 | a new engine has no timers and a valid state |
| TimerEngine.MinHeapTimer.Count | MinHeapTimer.hpp:44-46 | the counter is pre-incremented and the new value is the id handed out |
| TimerEngine.MinHeapTimer.AddTimer | MinHeapTimer.hpp:161-180 | the returned id is the old counter plus one, larger than every live id; the heap grows by one; the new timer expires at now + timingMs with the requested interval and kind; every other timer is unchanged; heap order and `idx` are kept |
| TimerEngine.MinHeapTimer.RemoveNode | MinHeapTimer.hpp:252-267 | `_removeNode` shrinks the heap by exactly one and removes exactly that id from the live timers, keeping heap order and `idx` equal to position |
| TimerEngine.MinHeapTimer.DelNode | MinHeapTimer.hpp:245-249 | deleting a node is removing it |
| TimerEngine.MinHeapTimer.DelTimer | MinHeapTimer.hpp:78-97 | returns true exactly when the id is live; it then removes that timer only, and otherwise leaves heap and table unchanged |
| TimerEngine.MinHeapTimer.FireEarliest | MinHeapTimer.hpp:108-135 | one pass of the sweep loop on a due front node: a one-shot timer is deleted, a repeating one is removed and re-armed at rearmAt plus its interval under the next id; the sweep state is kept and fewer timers are due |
| TimerEngine.MinHeapTimer.ExpireTimer | MinHeapTimer.hpp:100-138 | fires exactly the timers due at now, each once, as they were, in non-decreasing expiration order; afterwards no live timer is due and no fired id is live; the remaining timers are the unfired ones plus the re-armed copies under fresh ids, and the counter advanced once per repeating firing |
| TimerEngine.MinHeapTimer.GetTimerNode | MinHeapTimer.hpp:141-148 | the copy is the heap with its size; it lists every live timer once, and its first node is the earliest |
| Sweep.ReinsertedIds | MinHeapTimer.hpp:182-186 | the copies re-armed during a sweep carry exactly the ids after the starting counter, one per repeating firing, all repeating |
| Sweep.ReinsertedNotDue | MinHeapTimer.hpp:182-184 | a copy re-armed at rearmAt for an interval that reaches past now is not due |
| Sweep.FiredIdsAppend | MinHeapTimer.hpp:108-135 | each firing adds its own id to the fired ids |
| Sweep.ReinsertedAppend | MinHeapTimer.hpp:132-135 | a repeating firing adds one re-armed copy under the next id; a one-shot firing adds none |
| Sweep.Fire | MinHeapTimer.hpp:130-135 | firing one more timer takes the state after the earlier firings to: the timer removed, plus its re-armed copy under the next id when it repeats |
| Sweep.RearmedDueAgain | MinHeapTimer.hpp:132-137 | a repeating timer whose re-armed expiration is not after now is due again right after its re-insertion, so the loop would fire it again |
| Sweep.DueAfterFire | MinHeapTimer.hpp:130-135 | firing a due timer whose copy is not due takes exactly its id out of the due set, a strict decrease |
| Sweep.AfterFireLater | MinHeapTimer.hpp:108-135 | the timer fired from the front is no later than any timer left after the firing |
| Sweep.EachOncePairs | MinHeapTimer.hpp:108-135 | no two firings of a sweep are of the same timer |
| Sweep.InFiringOrderFrom | MinHeapTimer.hpp:108-111 | firings appear in non-decreasing expiration order, for any two positions |
| Sweep.SweepStart | MinHeapTimer.hpp:102-105 | before the first firing nothing has fired and the timers are untouched |
| Sweep.LiveOriginal | MinHeapTimer.hpp:108-135 | during a sweep, a timer that has not fired is still live and unchanged, and any live due timer is such a timer |
| Sweep.FiredLog | MinHeapTimer.hpp:108-128 | appending a due, unfired timer that is no earlier than the last firing keeps the firing log valid |
| Sweep.FireKeepsState | MinHeapTimer.hpp:108-135 | firing the front node is firing a timer that was live at the start and not yet fired, and it keeps the sweep state |
| Sweep.SweepStep | MinHeapTimer.hpp:106-137 | one loop pass keeps the sweep state, advances the count of repeating firings, and strictly shrinks the due set, which ends the loop |
| Sweep.SweepEnd | MinHeapTimer.hpp:108-111 | once the front node is not due, the fired ids are exactly the ids due at the start, each fired once, in order of expiration, and none is live |
| TimerLoop.MinOf | MinHeapTimer.hpp:333-335 | the running minimum is at most the starting value and every interval, and equals one of them |
| TimerLoop.MinOfAppend | MinHeapTimer.hpp:333-335 | a new interval replaces the minimum only when it is strictly smaller |
| TimerLoop.MinOfMonotone | MinHeapTimer.hpp:333-335 | the minimum never increases as intervals are added |
| TimerLoop.MinHeapTimerLoop.constructor | MinHeapTimer.hpp:285-288 | the tracker starts at the loop period, with no timers |
| TimerLoop.MinHeapTimerLoop.AddTimer | MinHeapTimer.hpp:329-352 | the tracker does not grow and ends at most the new interval, taking it only when it is smaller; then the engine inserts the timer as its own AddTimer does |
| TimerLoop.MinHeapTimerLoop.PollPeriodMs | MinHeapTimer.hpp:306 | the poll period is the tracker divided by 10, rounded down, so it is 0 for a tracker below 10 |
| TimerLoop.MinHeapTimerLoop.PollPeriodBound | MinHeapTimer.hpp:306 | ten poll periods are at most the starting period and at most every requested interval |

## Left out

- Locking. `std::mutex` and `unique_lock` are not modelled, and neither is the `try_lock` in `DelTimer`. That path returns false at line 87 while still holding the lock it took, so the lock is never released. This is a concurrency defect outside this sequential model.
- The polling thread. `StartTimerLoop` and `StopTimerLoop`, `std::thread`, the atomics and `sleep_for` are not modelled; only the period expression at line 306 is. The destructor at lines 290-294 calls `StartTimerLoop` where it evidently means to stop the loop. This is a defect in the thread driver, which is not part of this model.
- The clock. `TimeUtils::CurrentTime_ms` comes from `util_timer.hpp`, which is not part of this model. Clock readings are parameters.
- TimerEngine.MinHeapTimer.ExpireTimer: one clock reading, `rearmAt`, serves every re-insertion of a sweep. The source reads the clock again at each re-insertion. Any value at least `now` is allowed, but the readings are not modelled as increasing during the sweep.
- TimerEngine.MinHeapTimer.ExpireTimer: it requires that every repeating timer, re-armed at `rearmAt`, expires after `now`. This is a consequence of the single clock reading. The source compares against `now`, read once at line 105, but each re-insertion reads the clock again at line 183. A repeating timer with interval 0 therefore fires again under a fresh id, in a burst that ends at line 109 once the clock has moved past `now`. With one fixed `rearmAt` such a timer would be due again at once and the sweep would not end (see Sweep.RearmedDueAgain). So the model excludes these timers and does not capture the burst of repeat firings.
- Callbacks (`fb`). The source invokes the callback only when one is set (line 125). The model appends every popped due node to the result either way, and does not model callbacks that re-enter the engine.
- The payload `T`, its `memset` initialisation, and the three public `AddTimer` overloads. All three take the same callback. They differ in the payload, which is passed in or zeroed with `memset`, and in the repeat flag, which is always false, defaulted to false, or passed explicitly. With the payload dropped they collapse into one AddTimer with an `isLoop` flag.
- `_addTimer(TNode*)`. The re-insertion of a repeating node keeps its interval and repeating flag and takes a fresh id and expiration. That is the same insertion as AddTimer with the node's interval, and the sweep calls it that way.
- `new`, `delete` and pointer identity. Nodes are records keyed by id. `_delNode` therefore only removes the node.
- The `DEBUG` logging block (lines 113-123), `log_info` and `log_error`.
- Overflow. Ids, times and intervals are unbounded. The `int` counter `_count` would wrap after 2^31 - 1 ids. The `int64_t` and `uint64_t` mixing in the expiration sum is not modelled either.
- The tracker's type. The `atomic_int` tracker is compared with a `uint64_t` interval and stores it truncated to `int`. The model uses `nat` throughout.
- `_count` is `static`, so it is shared by every engine of the same payload type. Here it is a field of each engine.
- `TIMER_LOOP_TIME` is defined in `util_timer.hpp`, which is not part of this model. It is the constructor's parameter.
- `MinHeapTimerLoop` extends the engine by inheritance. Here it holds the engine (`timer`). Its `_addTimer` override is its AddTimer, which updates the tracker and then performs the engine's insertion. The sweep's re-insertions go through the non-virtual `_addTimer(TNode*)` and leave the tracker alone, as in the source.
- TimerEngine.MinHeapTimer.RemoveNode: the removed id leaves the slot table before the sifts, where the source erases it from `_map` after them. The sifts never read the table entry of the node in the last slot, so the result is the same.
- TimerEngine.SiftDownOnce: the source also stops when the left child's index is negative. Only an `int` overflow could make it negative, and that is not modelled.
- The sifts work on the values of the heap and the table and return new ones. The class methods store the results in their fields.
