# Multiprocessor real-time schedulability engine, modelled in Dafny

This project models the decision engine of a small multiprocessor real-time
scheduling tool. It takes periodic tasks `(id, offset, C, D, T)` and `m`
identical processors and decides whether the tasks can be scheduled. It has
three ways of deciding:

- **Partitioned EDF.** A bin-packing partitioner puts each task on one core,
  so that no core's utilisation exceeds 1.
- **Global EDF.** A discrete-time simulator elects the `m` earliest-deadline
  jobs at each time unit and places each on a slot. An elected job may find no
  slot and not run, or run on a second slot (the last two of the four points
  below).
- **EDF(k).** The `k-1` tasks with the largest utilisation get top priority.

Around these sit closed-form utilisation tests and the result codes 0-4.

The modules follow the program's files:

| module | file | what it models |
|---|---|---|
| `Sorting` | (Python `sorted`, `list.sort`) | A stable sort by a real key, ascending or descending. It is proved sorted, a permutation and stable. |
| `TaskModel` | models/task.py, models/job.py (not part of this model) | The minimal contract of tasks and jobs that the engine relies on. |
| `TaskSet` | models/taskset.py | `release_jobs` |
| `Partitioner` | partitioner.py | `first_next_fit`, `best_worst_fit` and `partition`. |
| `Schedulers` | schedulers.py, and the copy of `global_edf_scheduler` in core.py | `edf_priority`, `global_edf_scheduler` and `edf_k_scheduler`. |
| `Simulator` | core.py | `simulate` |
| `Analysis` | main.py | The utilisation helpers, the closed-form tests, the result codes, and the coherent parts of the orchestration. |

Design choices:

- **Utilisation.** `C / T` is an exact `real`.
- **Job identity.** In the simulator, Python job objects are shared between
  the queue and the processor slots, and `schedule(1)` mutates them in place.
  The model keeps every released job in a `heap` and puts heap indices in the
  queue and the slots.
- **Partitioner runs.** A partitioner run is described by the ghost sequence
  `assign` of chosen cores. `Partitioner.Run` says that each choice followed
  the heuristic's rule, given the loads the earlier choices left.
- **Simulator runs.** The whole simulator run is the function
  `Simulator.Simulation`, built by iterating the pure one-tick function
  `Simulator.Tick`. The imperative `Simulator.Simulate` is proved to compute
  it. `Simulator.SimulationMisses` and `Simulator.SimulationSchedulable` then
  say what its result means.

Four points of the code that the model keeps as they are:

- **Ties in sorting.** Python's sort is stable. Pairs with equal utilisation
  keep their input order, and they are not re-ordered by task number.
  `Sorting.SortByStable` states this.
- **How EDF(k) boosts.** `edf_k_scheduler` sorts and flags the caller's list
  in place. `Schedulers.EdfKScheduler` does the same on an array.
- **What the simulator can return.** Besides 0 and 2, `simulate` can end with
  a `ValueError`.
  - The assignment loop (core.py:82-86) does not check whether a job is
    already on a slot. A job already running that is elected again can take a
    second, empty slot (`Simulator.PlaceMayDuplicate`).
  - When that job completes, the second slot's `queue.remove` finds it gone
    and raises `ValueError` (`Simulator.FreeFailsOnDuplicate`).
  - The model makes this the outcome `RemoveFailed`. Because of it, "returns 0"
    is stated as "every tick runs to its end" (`Simulator.SimulationSchedulable`),
    not as "no deadline miss is observed".
- **A running job is not resumed on its own slot.** A slot accepts a job only
  when the job's deadline is strictly earlier than that of the job on it, and
  no job's deadline is earlier than its own. A slot never takes back its own
  job. With one processor, a job on the slot is therefore not run again while
  it stays there; it resumes only after a job with an earlier deadline has
  taken the slot and then been freed. With more processors, it can run on another
  empty slot when there is one ("What the simulator can return"). One task
  with `C = D = 2` and `T = 4` (utilisation 1/2) misses its deadline at tick 3
  (`Simulator.HalfLoadMisses`).

## Model

| member | source | states |
|---|---|---|
| Sorting.SortBy | partitioner.py:95-96 | The sorted sequence has the input's length and is a permutation of it (same multiset). |
| Sorting.SortBySorted | partitioner.py:95-96 | The result is ordered by the key in the requested direction. |
| Sorting.SortByStable | partitioner.py:95-96 | Sorting is stable: for every key value, the elements with that key appear in their input order. |
| TaskModel.Util | main.py:124 | A task's utilisation `C / T` is positive. |
| TaskSet.ReleaseJobs | models/taskset.py:10-17 | The loop returns exactly `Released`: for each task in task order, the job `spawn_job` creates if `t % T == 0`. |
| TaskSet.ReleasedConcat | models/taskset.py:12-17 | Releasing for a concatenation of task lists gives the two releases in order, so release order is task order. |
| TaskSet.ReleasedAtMostOnePerTask | models/taskset.py:12-16 | At most one job per task is released, so at most `|tasks|` jobs. |
| TaskSet.ReleasedIncludes | models/taskset.py:13-16 | The i-th task's contribution sits between those of the tasks before and after it. It is one job exactly when `t % T == 0` and `spawn_job` returns a job. |
| TaskSet.AllReleasedAtZero | models/taskset.py:13 | At `t = 0` every task is due: if every task spawns, `|tasks|` jobs are released. |
| TaskSet.DueTwiceInTwoPeriods | models/taskset.py:13 | Whatever the offset, over `0..2T-1` a task is due exactly at `0` and `T`. |
| Partitioner.Items | partitioner.py:92 | One `[utilisation, task number]` pair per task. |
| Partitioner.Loads | partitioner.py:16 | `cores_utilisation` after any run prefix has exactly `nb_cores` entries. |
| Partitioner.Cores | partitioner.py:15 | The core lists after any run prefix number exactly `nb_cores`. |
| Partitioner.FirstFitting | partitioner.py:24-31 | The inner scan returns the first core from the scan start where the task fits, or `nb_cores` exactly when it fits on none of those cores. |
| Partitioner.PreferredCore | partitioner.py:56-68 | The inner scan returns the fitting core with the greatest (best-fit) or least (worst-fit) resulting load, the lowest on ties, or none exactly when the task fits nowhere. |
| Partitioner.FirstNextFit | partitioner.py:13-37 | The loops return a `Packing`. Every placement follows the first-fit or next-fit rule, and the result holds the core lists that run builds. The flag is true exactly when every item was placed. Otherwise the run stopped at the first item for which no core from the scan start had room. There are exactly `nb_cores` core lists, and on success they hold every task number exactly as often as the items do. |
| Partitioner.BestWorstFit | partitioner.py:49-76 | The same for best-fit and worst-fit. Each item goes to the fitting core with the greatest (best-fit) or least (worst-fit) resulting load, and the lowest such core on ties. The flag is false exactly when an item fits nowhere. There are exactly `nb_cores` core lists, and on success they hold every task number exactly as often as the items do. |
| Partitioner.Partition | partitioner.py:89-104 | Builds the pairs, sorts them as the tag says, dispatches on the heuristic, and returns a `Packing` of the sorted pairs. There are exactly `nb_cores` core lists. On success they hold every task number exactly as often as the input tasks do. Every number in any core is an input task's number. |
| Partitioner.CoresFromItems | partitioner.py:29 | Every number in a core list is the number of one of the items. |
| Partitioner.SortItemsIds | partitioner.py:92-96 | Sorting the pairs keeps their task numbers, each as often as before. |
| Partitioner.RunChoice | partitioner.py:24-31 | Every placement of a run went to a real core (`< nb_cores`). That core is the one the heuristic's rule picks, given the loads left by the earlier placements. |
| Partitioner.RunInRange | partitioner.py:24 | Every core a run chose is one of the `nb_cores` cores. |
| Partitioner.RunRespectsCapacity | partitioner.py:26-28 | After any number of placements, no core's load exceeds 1. |
| Partitioner.NextFitNeverGoesBack | partitioner.py:35 | Under next-fit the cores used are non-decreasing in item order, so an earlier core is never revisited. |
| Partitioner.CoresKeepItemOrder | partitioner.py:29 | Each core's list holds the task numbers of exactly the items placed on it, in sorted input order. |
| Partitioner.EachPlacedTaskOnce | partitioner.py:54-76 | All core lists together hold the placed items' task numbers as a multiset. When the flag is true that is every task number, each exactly once if the numbers are distinct. |
| Partitioner.AllPlaced | partitioner.py:76 | A run that placed every item put every task number into the cores, as often as it occurs among the items. |
| Partitioner.ChosenUnique | partitioner.py:58-68 | Each heuristic's rule picks at most one core for an item. |
| Partitioner.StuckExcludesChosen | partitioner.py:70 | An item the rule places is never one it finds no core for. |
| Partitioner.PackingDeterministic | partitioner.py:89-104 | Two packings of the same items with the same heuristic and core count are identical: the same choices, core lists and flag. |
| Partitioner.PartitionOrder | partitioner.py:95-96 | The pairs are a permutation of the input pairs. `'du'` gives non-increasing utilisations and `'iu'` non-decreasing ones. Equal utilisations keep their input order. |
| Schedulers.EarliestIndex | schedulers.py:10 | `min`'s index: its deadline is at most every job's, and every job before it has a strictly later deadline, so the first of several minima is returned. |
| Schedulers.EdfPriority | schedulers.py:6-10 | `None` exactly for an empty list. Otherwise a member whose deadline is at most every job's, and the first such in list order. |
| Schedulers.GlobalEdfScheduler | schedulers.py:22-29 | Elects `min(m, |queue|)` jobs, drawn from the queue as a sub-multiset, in non-decreasing deadline order. |
| Schedulers.ElectedFirst | schedulers.py:26-29 | No elected job has a later deadline than any queued job that was left out. |
| Schedulers.PrefixLength | schedulers.py:48 | The length of Python's `s[:end]`: at most `n`, and `end` itself when `0 <= end <= n`. |
| Schedulers.Boost | schedulers.py:48 | Boosting keeps the list's length. |
| Schedulers.EdfKScheduler | schedulers.py:33-48 | The array is left as `EdfKOrder` of its old contents: sorted by non-increasing utilisation, with `tasks[:k-1]` boosted. An empty array stays empty. |
| Schedulers.EdfKOrderSpec | schedulers.py:43-48 | The result has the input's length and non-increasing utilisations. A task is boosted exactly when it is among the first `k-1` or was boosted already, so no other task's priority changes, and `k = 1` boosts nothing. |
| Schedulers.EdfKOrderKeepsTasks | schedulers.py:46 | Apart from the boost flag, the result is a permutation of the input. |
| Schedulers.UnflagSort | schedulers.py:46 | Sorting commutes with clearing the boost flag: the flag plays no part in the order. |
| Schedulers.BoostKeepsTasks | schedulers.py:48 | Boosting changes nothing but the flag. |
| Schedulers.BoostNone | schedulers.py:48 | Boosting zero tasks changes nothing. |
| Simulator.Init | core.py:58-59 | The empty queue and `m` empty slots form a valid state. |
| Simulator.Fresh | core.py:63 | Released jobs get new, distinct identities above every earlier one. |
| Simulator.EnqueueValid | core.py:63 | Appending released jobs keeps the state valid: `m` slots, the queue and slots refer to released jobs, and no job is queued twice. |
| Simulator.FindMissed | core.py:66-68 | The scan returns true exactly when some queued job has missed its deadline at `t`. |
| Simulator.RemoveFirst | core.py:73 | `list.remove`: fails (`ValueError`) exactly when the job is absent. Otherwise it removes exactly one occurrence. |
| Simulator.RemoveFirstOrder | core.py:73 | The occurrence removed is the first one, and the rest of the queue keeps its order. |
| Simulator.FreeFrom | core.py:71-74 | A successful freeing pass keeps `m` slots. |
| Simulator.FreeFromClears | core.py:71-74 | On success a slot is cleared exactly when its job is complete, and every other slot is unchanged. The pass fails only at a complete job. |
| Simulator.FreeFromQueue | core.py:71-74 | The queue loses exactly the jobs of the cleared slots. |
| Simulator.FreeCompleted | core.py:71-74 | The loop over slots computes `FreeFrom`: it fails exactly when the pass fails, and otherwise leaves its queue and slots. |
| Simulator.Place | core.py:82-86 | An elected job takes the first slot that is empty or holds a strictly later deadline, and executes one unit there. If no slot accepts it, nothing changes. Either way only that job can change, and only by one unit. |
| Simulator.AssignAll | core.py:81-86 | Assignment keeps `m` slots, and the slots refer to released jobs. |
| Simulator.AssignElected | core.py:81-86 | The nested loops with `break` compute `AssignAll` on the slot array. |
| Simulator.Tick | core.py:63-86 | A tick stops with a deadline miss exactly when the check, made after the release and before any execution, finds a missed job. A tick never ends the run as schedulable. |
| Simulator.FreeFromValid | core.py:70-74 | The freeing pass keeps the state valid. |
| Simulator.TickValid | core.py:59-86 | A tick keeps the state valid, and the heap grows by exactly the released jobs. |
| Simulator.RunTick | core.py:62-86 | The loop body computes `Tick` in place: its stop outcome, or the next queue and slot array. |
| Simulator.StoppedPersists | core.py:68 | Once the run has returned, its outcome stays fixed. |
| Simulator.IterateStopped | core.py:61-68 | A run ends with outcome `o` by tick `n` exactly when some earlier tick is reached still running and ends it with `o`. |
| Simulator.IterateRunning | core.py:61-88 | A run is still going before tick `n` exactly when every earlier tick ran to its end. |
| Simulator.BeforeValid | core.py:59 | Every state a run reaches is valid. In particular `processor_load` always has exactly `m` slots. |
| Simulator.Advance | core.py:61-86 | One loop pass either returns the run's final outcome or gives the state before the next tick. |
| Simulator.RanToEnd | core.py:88 | A run still going after tick `t_max` returns 0. |
| Simulator.Simulate | core.py:45-88 | The imperative tick loop returns exactly `Simulation`. |
| Simulator.SimulationMisses | core.py:61-68 | `simulate` returns 2 exactly when some tick `t <= t_max` is reached still running and its check finds a queued job past its deadline. |
| Simulator.SimulationSchedulable | core.py:61-88 | `simulate` returns 0 exactly when every tick `0..t_max` runs to its end. |
| Simulator.AssignAllRunsOnce | core.py:81-86 | With no job elected twice, each elected job executes at most one unit and no other job executes. |
| Simulator.TickRunsAtMostM | core.py:77-86 | In one tick at most `m` jobs execute, each for at most one unit. Every other job is unchanged, so remaining execution only decreases and deadlines never change. |
| Simulator.PlaceMayDuplicate | core.py:82-84 | A job already on slot 0 that is elected again also takes the empty slot 1. |
| Simulator.FreeFailsOnDuplicate | core.py:72-73 | Once that job completes, the second slot's `queue.remove` finds it gone. |
| Simulator.TickRuns | core.py:63-86 | A tick that observes no miss and frees without error assigns the elected jobs on the freed state. |
| Simulator.HalfLoadStalls | core.py:82-86 | With one processor, a job on the only slot that is elected again does not run, and the state does not change. |
| Simulator.HalfLoadMisses | core.py:61-86 | One task with `C = D = 2`, `T = 4` on one processor: the run is reached at tick 3 still going, the check finds a miss there, and `simulate` returns 2. |
| Analysis.Code | main.py:11-15 | Every verdict has a code in `0..4`. |
| Analysis.CodesDistinct | main.py:11-15 | Distinct verdicts have distinct codes. |
| Analysis.Max | main.py:124 | `max`: an element of the sequence that no element exceeds. |
| Analysis.UMax | main.py:120-124 | `compute_u_max` is undefined exactly for an empty set. Otherwise it is some task's utilisation, and no task's utilisation exceeds it. |
| Analysis.USum | main.py:126-130 | `compute_system_utilization` is non-negative, and at least each task's utilisation, which is positive. |
| Analysis.SumBounds | main.py:130 | A sum of non-negative terms is non-negative and at least each term. |
| Analysis.UMaxAtMostUSum | main.py:120-130 | `0 < u_max <= U_sum`. |
| Analysis.HasImplicitDeadlines | main.py:132-142 | The early-return loop answers true exactly when every task has `D == T`. |
| Analysis.IfSynchronous | main.py:105-118 | The loop answers true exactly when all offsets are equal. An empty set is synchronous. |
| Analysis.PartitionedEdfTest | main.py:144-161 | Undefined exactly for an empty set. Otherwise it is true iff `u_max <= 1` and `U_sum <= (m+1)/2` (by definition). |
| Analysis.PartitionedSingleCore | main.py:156-161 | For `m = 1` the partitioned test is `U_sum <= 1`. |
| Analysis.SporadicGlobalTest | main.py:177-189 | On one processor the sporadic test is `U_sum <= 1`. With a task of utilisation 1 or more on `m >= 1` processors, it passes only if `U_sum <= 1`. |
| Analysis.PeriodicGlobalTest | main.py:163-175 | For `m >= 1` and `0 <= u_max <= U_sum`, passing the sporadic test implies passing the periodic one. |
| Analysis.SporadicImpliesPeriodic | main.py:163-189 | For any non-empty task set and `m >= 1`, the sporadic global test implies the periodic global test. |
| Analysis.PartitionedImpliesPeriodic | main.py:144-175 | For `m >= 1`, passing the partitioned test implies passing the periodic global test. |
| Analysis.SortedUtils | main.py:205-208 | The sorted utilisations are a permutation of the tasks' utilisations. |
| Analysis.EdfKTest | main.py:191-220 | The test is defined only for `1 <= k <= n` with `U_k < 1`. |
| Analysis.KthLargest | main.py:205-211 | `U_k` is the k-th largest utilisation: none before it is smaller and none after it is larger. |
| Analysis.SumSorted | main.py:208 | Sorting keeps the total utilisation. |
| Analysis.SortedUtilsHead | main.py:208-211 | The first sorted utilisation is `u_max`. |
| Analysis.EdfOneIsSporadicTest | main.py:191-220 | With `u_max < 1`, the EDF(1) test is exactly the sporadic global test `U_sum <= m - (m-1) u_max`. |
| Analysis.EdfKMonotone | main.py:218 | If the EDF(k) test passes with `m` processors, it also passes with `m + 1`. |
| Analysis.EdfKTestAsWritten | main.py:191-220 | The code as written is defined only where Python's index `k-1` is in range, which includes negative indices. |
| Analysis.EdfKAsWrittenRejects | main.py:211-218 | For utilisations `[1/2, 1/4]`, `k = 1`, `m = 2`, the code as written answers false where the theorem answers true. |
| Analysis.WithIdSingle | main.py:26 | With distinct task numbers, a number that occurs selects exactly one task, which has that number. |
| Analysis.RebuildFromTasks | main.py:26 | A rebuilt core holds only input tasks, whatever the task numbers. |
| Analysis.RebuildKeepsIds | main.py:26 | With distinct task numbers, each of which occurs among the tasks, the rebuilt core has one task per task number, with that number, in the partition's order. |
| Analysis.RebuildEachKeepsIds | main.py:24-27 | The same for every core at once. |
| Analysis.PartitionIdsFromTasks | main.py:20-26 | Every number in a partitioned core is an input task's number, so `RebuildKeepsIds` applies to each core. |
| Analysis.RebuildCores | main.py:24-27 | The loop gives one rebuilt core per core of task numbers, and every rebuilt core holds only input tasks. |
| Analysis.SchedulePartitionedEdf | main.py:18-68 | Returns a `Packing` of the sorted pairs and each core rebuilt from its task numbers. There are exactly `m` cores, and they hold only input tasks. With distinct task numbers, each core holds one task per number of its partition, with that number, in order. The code is 3 exactly when partitioning fails; otherwise no code is decided here. |
| Analysis.ScheduleGlobalEdf | main.py:70-76 | Code 0 exactly when every simulated tick runs to its end. Code 2 exactly when the simulation observes a deadline miss. |
| Analysis.GlobalVerdictAsWritten | main.py:70-76 | As written: no code exactly for the `ValueError`. Otherwise code 0 for a run to the end and code 1 for a deadline miss. |
| Analysis.GlobalVerdict | main.py:70-76 | As intended: no code exactly for the `ValueError`. Otherwise the code is `simulate`'s own result, 0 or 2. |
| Analysis.GlobalAsWrittenHidesMiss | main.py:75-76 | As written, every run that observes a deadline miss is reported as code 1, "schedulable without simulation". |
| Analysis.HalfLoadReportedSchedulable | main.py:70-76 | One task of total utilisation 1/2 on one processor: the simulation up to `t_max = 3` misses a deadline, and the mapping as written reports code 1. |
| Analysis.ScheduleEdfK | main.py:86-89 | Code 4 exactly when `k > n`. Otherwise no code is decided. |
| Analysis.GuardKeepsEdfKDefined | main.py:86-89 | `k > n` gives code 4, exactly. Past that guard, for `k >= 1` the EDF(k) test is undefined only when `U_k >= 1`. |

## Left out

- File and command-line I/O: `parse_task_file`, `TaskSet.read_file`, argument parsing, `exit`, and the `print` calls.
- The task and job classes (models/task.py, models/job.py) are not part of this model.
  - A task is `(id, offset, C, D, T)` with `C, D, T > 0`.
  - A job is `(deadline, remaining)`. `schedule(units)` subtracts `units`. A job is complete when nothing remains, and has missed its deadline when that deadline lies before `t` and it is not complete.
  - `spawn_job` is a function parameter `spawn` and may return no job.
- Floating point: utilisations, loads and bounds are exact reals. At the boundary of `<= 1`, `<= (m+1)/2` and the other bounds, Python's rounded `C / T` can decide differently.
- `t_max` is a parameter of the global branch. main.py:85 hard-codes it to 0.
- The orchestration in main.py cannot run as written, so it is modelled only through its coherent result-code mappings.
  - `schedule` indents some lines with tabs and others with spaces (main.py:81-89). Python 3 rejects this with `TabError` before anything in the file runs.
  - `schedule_partitioned_edf` assigns `has_implicit_deadlines` in its own body, so the call at main.py:37 raises `UnboundLocalError`.
  - Past that point it reads the global `scheduler`, which only the `-v` option sets (main.py:232). It also returns the misspelled `SCHEDULABLE_WITHHOUT_SIMULATION`.
  - `schedule` reads the global `taskset` (main.py:238) and the undefined `m` and `t_max`.
- Analysis.SchedulePartitionedEdf: the per-core tests after a successful partition are not modelled. The first of them raises `UnboundLocalError` at main.py:37, so the verdict is then `None`.
- Simulator.FreeFromQueue: states the queue after the freeing pass as a multiset. The order of the remaining jobs follows from `Simulator.RemoveFirstOrder` one removal at a time, but it is not stated for the whole pass.
- The swapped arguments of `edf_k_test_with_given_m(tasks, nb_cores, scheduler)` at main.py:60 are not modelled. The test is stated with `k` and `m` in their declared roles.
- Tuple unpacking: main.py's helpers unpack tasks as tuples (`C, T, _`, `_, T, D`, `C, T`), which a task object of five fields does not support. The model reads the named fields instead.
- `partitioner.py:96`: the mis-indented `elif` is modelled as intended. `'du'` sorts decreasing, `'iu'` increasing, and any other tag leaves the order.
- Unknown heuristic names: in the source they leave the result unbound. Here the heuristic is a four-valued datatype.
- Schedulers.EdfKScheduler: the boost is modelled as intended, as a `boosted` flag. schedulers.py never imports `math`, so as written its boost loop raises `NameError` whenever `tasks[:k-1]` is non-empty. The processor count it takes is unused and is not a parameter.
- The commented-out uniprocessor simulator (core.py:4-21) is not modelled.
- Simulator.Simulate: `simulate`'s `scheduler` argument (core.py:45) is not a parameter. The body never reads it and always runs global EDF, so the EDF(k) branch of `schedule`, which passes `k` there (main.py:91), would simulate global EDF.
- Simulator.RemoveFailed: the `ValueError` of `queue.remove` is an outcome of the run rather than an exception.
- Analysis.ScheduleEdfK: past the `k > n` guard, the source starts a simulation with undefined arguments and discards its result. The model gives no code there.

## Findings

| source | as written | input that shows it | evidently intended | confidence | as-written member | corrected member |
|---|---|---|---|---|---|---|
| main.py:215-218 | Sums `task_utilizations[:n-k-1]`, the largest utilisations, and tests `m == (k-1) + U/(1-U_k)`. | Utilisations `[1/2, 1/4]`, `k = 1`, `m = 2`: `2 == 0 + 0/(1/2)` is false. | The EDF^(k) test of Goossens, Funk and Baruah: `m >= (k-1) + (sum of the utilisations after the k-th)/(1-U_k)`. It accepts that input, and for `k = 1` it equals the sporadic global test. | not executed | Analysis.EdfKAsWrittenRejects | Analysis.EdfOneIsSporadicTest |
| main.py:75-76 | `simulate`'s result 2, a deadline miss, maps to code 1, "schedulable without simulation". | Any task set and `t_max` for which the simulation observes a miss. | Code 2, "not schedulable with simulation". | not executed | Analysis.GlobalAsWrittenHidesMiss | Analysis.ScheduleGlobalEdf |
