# Parallel merge sort with a task-ring thread pool, in Dafny

The program sorts an integer array with a divide-and-conquer merge sort.
The sort comes in two versions:

- a sequential one, `merge_sort` with `merge`;
- a pooled one, `p_merge_sort` with `p_merge`. It hands each pair of
  recursive calls to a small thread pool while the recursion is shallow.

The merge is itself divide and conquer:

- it takes the middle value of the longer range;
- it finds by binary search where that value falls in the other range;
- it writes the value there in the output;
- it merges the two left parts and the two right parts on either side.

The pool keeps the tasks it has been handed in a fixed ring of slots.

The model has five modules:

- `SortSpec` (sort_spec.dfy) is the meaning of "sorted":
  - `Sorted` and `SortedRange`;
  - a reference insertion sort, `Sort`, proved to be the one sorted
    permutation of its input;
  - the facts about sorted sequences that the merge needs.
- `SortPrimitives` (sort_primitives.dfy) has `binary_search` and `swap`.
  Both C files define them with the same text:
  - `BinarySearch` keeps the source's loop and is proved equal to the
    recursive `LowerBound`;
  - `LowerBound` is proved to be the lower bound on a sorted range.
- `MergeModel` (merge_model.dfy) holds the lemmas that one step of the merge
  and one step of the sort rely on. `Splice(a, lo, w)` is `a` with the
  window from `lo` overwritten by `w`.
- `TradMergeSort` (trad_merge_sort.dfy) has `merge` and `merge_sort` as
  methods over arrays, with the source's branches and index arithmetic.
  - The output window becomes exactly `Sort` of the input ranges.
  - Every other output cell is kept, and the input is not changed.
- `PMergeSort` (p_merge_sort.dfy) has `p_merge` and `p_merge_sort`.
  - The fork/join dispatch is modelled: when the pool is there and the depth
    is at most `MAX_DEPTH` (2), each sub-problem is offered to the pool.
  - `addTaskFront`'s answer depends on other threads, so it is chosen
    arbitrarily. A queued task is waited for, and counts as having run. A
    refused one runs on the calling thread.
  - Both methods are proved to the same contracts as the sequential ones,
    whatever the answers. `SortsAgree` shows that the two sorts leave the
    same output.
- `Multithreading` (multithreading.dfy) covers `Task`, `TaskQueue` and
  `ThreadPool` as classes:
  - the ring initialisation of `createThreadPool`;
  - the push of `addTaskFront`;
  - the dequeue and completion steps of `worker`;
  - the terminate flag of `destroyThreadPool`;
  - the early return of `waitForTask`.

About the ring:

- `rear` never moves from slot 0, so the ring is a stack. The ghost field
  `pending` is the stack of queued tasks, top first. The ghost multiset
  `running` holds the tasks workers have taken and not yet completed.
- The ring invariant `Valid` keeps the active count equal to queued plus
  running, and between 0 and max_tasks. The ring may fill completely.
- A full ring has `front == rear`, just like an empty one (see Findings).
  The model adds a field `queued`, the number of queued tasks, and the
  workers' emptiness test looks at it instead of comparing `front` and
  `rear`.
- The source never initialises `no_active_tasks` in `createThreadPool`. The
  model starts it at 0.

About indices:

- The source computes midpoints as `floor` of a halved sum, some of them
  through `double`. Every sum there is non-negative, so the model uses
  integer division.

## Model

| member | source | states |
|---|---|---|
| SortPrimitives.BinarySearch | src/trad_merge_sort.c:23-35 | The loop answers the lower-bound search over the window [p, max(p, r+1)): the answer lies in [p, max(p, r+1)]. On a sorted non-empty [p, r], every value before the answer is below x and every value from it on is at least x. |
| SortPrimitives.Search | src/p_merge_sort.c:27-39 | binary_search's answer h satisfies p <= h <= max(p, r+1). When p <= r+1 it is the search over [p, r+1). |
| SortPrimitives.LowerBoundSpec | src/p_merge_sort.c:31-38 | For any contents, the value left of the answer is below x and the value at the answer is at least x (where they lie in the range). On a sorted range this makes the answer the lower bound. |
| SortPrimitives.LowerBoundSorted | src/trad_merge_sort.c:27-33 | Each halving step keeps the lower-bound facts for the parts of a sorted range already excluded, so the loop ends at the lower bound. |
| SortPrimitives.Swap | src/trad_merge_sort.c:37-41 | The two values come back exchanged. |
| TradMergeSort.Merge | src/trad_merge_sort.c:43-78 | Given two sorted ranges of T, A from p3 becomes the sorted permutation of their union (Sort of the two ranges). Every other cell of A is unchanged, and so is T. |
| TradMergeSort.MergeOrdered | src/trad_merge_sort.c:61-76 | With range 1 the longer, the result is the same as Merge's. With range 1 empty nothing is written. |
| TradMergeSort.MergeSort | src/trad_merge_sort.c:80-117 | For a non-empty [p, r], B from s becomes the sorted permutation of A[p..r]. The rest of B is kept and A is unchanged. |
| TradMergeSort.SortOneValue | src/trad_merge_sort.c:91-92 | Copying the one value of a one-element range writes the sort of that range (used by both sorts; p_merge_sort.c:119-120 is the same copy). |
| PMergeSort.Dispatches | src/p_merge_sort.c:77 | Sub-problems go to the pool only when there is a pool and depth <= MAX_DEPTH. |
| PMergeSort.Hand | src/p_merge_sort.c:77-86 | A sub-problem is queued only by a call that dispatches. Otherwise it stays on the calling thread. |
| PMergeSort.RunMerge | src/p_merge_sort.c:87-98 | Whether queued (then waited for) or refused (then run inline), p_merge is called once on that branch, and A ends with p_merge's window result. |
| PMergeSort.RunSort | src/p_merge_sort.c:143-154 | Whether queued or refused, p_merge_sort is called once on that branch, and B ends with its window result while A is unchanged. |
| PMergeSort.PMerge | src/p_merge_sort.c:47-105 | The same result as the sequential merge (Sort of the two sorted ranges in A's window, nothing else changed), whatever the pool answers. |
| PMergeSort.PMergeOrdered | src/p_merge_sort.c:66-103 | With range 1 the longer: nothing written when it is empty. Otherwise T[q1] goes to q3, and the two sub-merges, dispatched or inline and, whenever the right one is queued, finishing in either order, complete the sorted window. |
| PMergeSort.PMergeSort | src/p_merge_sort.c:107-167 | B from s becomes the sorted permutation of A[p..r], with the rest of B kept and A unchanged, for any pool answers. The final merge restarts at depth 0. |
| PMergeSort.SortsAgree | src/p_merge_sort.c:122-160 | merge_sort and p_merge_sort leave identical output buffers for the same input. |
| MergeModel.MergeNothing | src/trad_merge_sort.c:61-62 | With both ranges empty, returning without a write already gives the merge's result. |
| MergeModel.SortedParts | src/trad_merge_sort.c:70-71 | The four sub-ranges handed to the recursive merges are sorted. |
| MergeModel.MergePivotSegments | src/trad_merge_sort.c:64-68 | With q2 the lower bound of T[q1] in range 2: the sort of both ranges is the sort of the left parts, then T[q1], then the sort of the right parts. T[q1] lands at q3. |
| MergeModel.MergeSplitStep | src/trad_merge_sort.c:64-74 | Writing T[q1] at q3 and merging the left and right parts into [p3, q3) and [q3+1, p3+n1+n2) overwrites exactly the window, with the sort of both ranges. |
| MergeModel.SpliceAroundPivot | src/trad_merge_sort.c:68-74 | A write at q3 and two writes of the windows just before and after it together overwrite one window. |
| MergeModel.SpliceCommute | src/p_merge_sort.c:80-98 | Two writes of disjoint windows, as the left and right sub-merges (or half sorts) make, give the same array in either order. |
| PMergeSort.SortHalves | src/p_merge_sort.c:133-154 | Each half sort is queued or run inline, and whenever the right one is queued either may finish first; T ends with the sort of A[p..q] in [0, q') and of A[q+1..r] in [q', n), and A is unchanged. |
| PMergeSort.HalvesEitherOrder | src/p_merge_sort.c:143-154 | Sorting the right half into T before the left one leaves T as the left-then-right order does. |
| MergeModel.MergeSortStep | src/trad_merge_sort.c:94-108 | After the two half sorts, T holds two sorted ranges [0, q') and [q', n). Their merge is the sort of A[p..r]. |
| MergeModel.BufferHalves | src/trad_merge_sort.c:102-106 | The half sorts fill T[0..q') and T[q'..n) with the sorts of A[p..q] and A[q+1..r]. |
| SortSpec.SortIsSortedPermutation | src/trad_merge_sort.c:80-117 | The reference sort is sorted and a permutation of its input. |
| SortSpec.SortCharacterization | src/trad_merge_sort.c:43-78 | A sequence is the sort of s exactly when it is sorted and a permutation of s (both directions). |
| SortSpec.SortedUnique | src/trad_merge_sort.c:43-78 | Two sorted sequences with the same multiset are equal, so the merge's output is determined. |
| SortSpec.MergeCombine | src/trad_merge_sort.c:68-74 | The sorted left parts, the pivot and the sorted right parts make up the sort of both ranges. |
| SortSpec.SortSwap | src/trad_merge_sort.c:55-59 | Swapping the two ranges does not change their merge. |
| SortSpec.SortOfSortedHalves | src/trad_merge_sort.c:105-109 | Merging the sorted halves gives the sort of the whole range. |
| Multithreading.TakeFront | src/multithreading.c:30 | A take moves front to a slot of the ring, in [0, max_tasks). TakeFrontSteps and RingInverse state where. |
| Multithreading.PushFront | src/multithreading.c:155-159 | A push moves front one slot back, from 0 to max_tasks - 1, and stays in [0, max_tasks). |
| Multithreading.TakeFrontSteps | src/multithreading.c:30 | A take moves front one slot on, wrapping from the last slot to 0. |
| Multithreading.RingInverse | src/multithreading.c:30 | A take undoes a push and a push undoes a take, on every slot. |
| Multithreading.PushesFromZero | src/multithreading.c:155-159 | From slot 0, k pushes (k <= max_tasks) put front at max_tasks - k, and back at 0 after exactly max_tasks. |
| Multithreading.ReadsEmptyAsWritten | src/multithreading.c:18 | The worker's test as written: the ring reads as empty exactly when front == rear. |
| Multithreading.HasRoom | src/multithreading.c:137-141 | addTaskFront's capacity test: a push is refused exactly when the active count has reached max_tasks. |
| Multithreading.PushState | src/multithreading.c:137-163 | On the ring's (front, active count), a push is accepted exactly when HasRoom holds. An accepted push leaves front in [0, max_tasks) and one more active task. |
| Multithreading.PushStatesFromNew | src/multithreading.c:137-163 | From a new pool (front 0, nothing active), k <= max_tasks pushes in a row are all accepted, leave k tasks active and put front where k PushFront steps put it. |
| Multithreading.FullRingReadsEmpty | src/multithreading.c:18 | As written, a new pool accepts max_tasks pushes in a row, after which front == 0 == rear with max_tasks tasks active, and the worker's test as written reads that filled ring as empty. |
| Multithreading.TaskQueue.constructor | src/multithreading.c:71-87 | Every slot is NULL, front == rear == 0, and no task is active or queued. |
| Multithreading.Task.constructor | src/p_merge_sort.c:77-78 | A task built from a function and its argument (the fork in p_merge; also lines 134-135 in p_merge_sort) keeps both, is not done, has a NULL output and priority 0, as the struct's other fields are zero-initialised. |
| Multithreading.TaskQueue.ReadsEmptyWhenEmptyOrFull | src/multithreading.c:18 | In a valid ring, front == rear exactly when no task is queued or all max_tasks slots are queued. |
| Multithreading.ThreadPool.constructor | src/multithreading.c:55-108 | The pool starts not terminated, with an empty ring of max_tasks NULL slots. |
| Multithreading.ThreadPool.AddTaskFront | src/multithreading.c:132-180 | The answer is -1, with nothing changed, exactly when the ring has no room or the task or its function is NULL. Otherwise: the task is reset (not done, output NULL, its function, argument and priority kept); front steps back; the task is stored at front and is the new top of the stack; the active count grows by one; the answer is 0. The capacity test is the source's. The queued count grows by one, and the ring invariant, with the active count at most max_tasks, is kept. |
| Multithreading.ThreadPool.Take | src/multithreading.c:18-30 | A terminated pool makes the worker leave, and an empty ring makes it wait, both with nothing changed. The emptiness test is the corrected one (no task queued), so a full ring is not mistaken for an empty one. Otherwise the top task is taken, front steps on, the queued count drops by one and the task joins the running tasks. |
| Multithreading.ThreadPool.Complete | src/multithreading.c:28-44 | Only a task a worker has taken can be completed. It keeps its output and is done (function, argument and priority kept), it leaves the running tasks, and the active count drops by one. The queued tasks are untouched. |
| Multithreading.ThreadPool.Destroy | src/multithreading.c:114 | terminated becomes true and the ring is untouched. |
| Multithreading.ThreadPool.WaitForTask | src/multithreading.c:183-200 | Returns at once exactly when the task has no function or is already done. Otherwise it would block. |
| Multithreading.ThreadPool.FillRing | src/multithreading.c:132-163 | From a new pool, max_tasks pushes of valid tasks are all accepted; the ring then holds max_tasks queued tasks and front == rear. |
| Multithreading.ThreadPool.PushThenTake | src/multithreading.c:148-163 | An accepted push followed by a take hands back the task just pushed and restores front and the queued stack (LIFO). |

## Left out

- 32-bit `int`: indices, sizes and values are unbounded integers. Sums like `p1 + r1` cannot overflow in the model.
- `main` in both sort files is not modelled: argument parsing, random input, timing and `getrusage` reports. Neither are verbosity and logging (src/verbosity.c is not part of this model).
- TradMergeSort.MergeSort: requires a non-empty range (p <= r). With n == 0 the source recurses on the same range without end; with n < 0 the allocation of T fails and the program exits. The callers refuse a size <= 0.
- PMergeSort.PMergeSort: the same non-empty-range requirement as MergeSort.
- TradMergeSort.Merge: requires both input ranges to be sorted and T and A to be different buffers. The source does not check this, and its result means nothing otherwise. Every caller establishes it.
- PMergeSort.PMerge: the same requirements as Merge.
- The `depth` field of the sequential argument structs is read and passed on as depth + 1 (src/trad_merge_sort.c:50, 70-71, 88, 102-103) but never affects the result, so it is not modelled.
- `malloc` failure with `exit`, and `free`. The temporary buffer is a fresh array; the copied argument struct is the method's parameters.
- Threads, mutexes and condition variables are not modelled, and neither is blocking:
  - a queued sub-task counts as having run when it is waited for;
  - Take returns Wait instead of sleeping;
  - WaitForTask returns false instead of sleeping.
  - Real concurrency between the left and right tasks appears as the order they finish in: whenever the right one is queued, it may finish first, while the left one runs on the calling thread or waits under it in the ring. A queued left task is waited for before a refused right one runs, so then the left one finishes first. SpliceCommute shows the order does not matter. Interleaved steps of the two are not modelled; they write disjoint windows.
  - The fork/join deadlock hazard (every worker waiting on queued tasks) is out of scope.
- PMergeSort.Hand: which answer `addTaskFront` gives depends on the other threads and the ring's state. The model chooses it arbitrarily, and the pooled sort is not linked to the Multithreading ring.
- The worker decrements `no_active_tasks` outside the queue lock, which is a race. The model treats Complete as one atomic step.
- Multithreading.ThreadPool.constructor: requires max_tasks > 0, the positive capacity a pool is created with. With 0 the slot array is empty and addTaskFront refuses every task, so such a pool never runs anything.
- createThreadPool's allocation failures (returning NULL) and `pthread_create` are not modelled. Neither are destroyThreadPool's cancel, join and free, nor addTaskFront's mutex and condition setup on the task.
- `isTaskInQueue` is declared in src/multithreading.h:43 but has no body, so it is not modelled.
- The task `priority` is carried but never read by the pool.
- The `queued` field of the task ring is not in the source. The model adds it so that the workers' corrected emptiness test can tell a full ring from an empty one; see Findings.

## Findings

| source | as written | input that shows it | evidently intended | confidence | as-written member | corrected member |
|---|---|---|---|---|---|---|
| src/multithreading.c:18 | Workers treat `front == rear` as an empty ring, while addTaskFront (lines 137-141) accepts pushes until `no_active_tasks` reaches `max_tasks`. So the ring can hold `max_tasks` tasks, and with `rear` fixed at 0 a full ring has `front == rear`. | `createThreadPool(n, 1)`, then one `addTaskFront` with a valid task: front moves from 0 to `max_tasks - 1 == 0 == rear`. Every worker keeps waiting and `waitForTask` never returns. | A full ring must not look empty: the workers' emptiness test should tell a full ring from an empty one, for instance by a count of queued tasks. | high; not executed | Multithreading.FullRingReadsEmpty | Multithreading.ThreadPool.Take |
