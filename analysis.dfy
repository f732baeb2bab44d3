/**
 * The closed-form tests and their helpers (main.py).
 *
 * Utilisations are the exact reals `C / T` (`Util`). The tests are predicates
 * on the number of processors and on the largest and the total utilisation;
 * the orchestration around them maps partitioner and simulator results to
 * the result codes 0-4.
 */
module Analysis {
  import opened TaskModel
  import opened Sorting
  import Schedulers
  import TaskSet
  import Partitioner
  import Simulator

  // ---------------------------------------------------------------------------
  // Result codes
  // ---------------------------------------------------------------------------

  datatype Verdict =
    | SchedulableWithSimulation
    | SchedulableWithoutSimulation
    | NotSchedulableWithSimulation
    | NotSchedulableWithoutSimulation  // a necessary condition fails
    | CannotTell

  /** The exit code of each verdict. */
  function Code(v: Verdict): (c: int)
    ensures 0 <= c <= 4
  {
    match v
    case SchedulableWithSimulation => 0
    case SchedulableWithoutSimulation => 1
    case NotSchedulableWithSimulation => 2
    case NotSchedulableWithoutSimulation => 3
    case CannotTell => 4
  }

  /** Distinct verdicts have distinct codes. */
  lemma CodesDistinct(v: Verdict, w: Verdict)
    ensures Code(v) == Code(w) ==> v == w
  {
  }

  // ---------------------------------------------------------------------------
  // Utilisation
  // ---------------------------------------------------------------------------

  /** `C / T` of every task, in task order. */
  function Utils(tasks: seq<Task>): (us: seq<real>)
    ensures |us| == |tasks|
  {
    seq(|tasks|, i requires 0 <= i < |tasks| => Util(tasks[i]))
  }

  /** Python's `sum`. */
  function Sum(us: seq<real>): real {
    if us == [] then 0.0 else us[0] + Sum(us[1..])
  }

  /** Python's `max` of a non-empty sequence: an element no element exceeds. */
  function Max(us: seq<real>): (u: real)
    requires us != []
    ensures u in us
    ensures forall i :: 0 <= i < |us| ==> us[i] <= u
  {
    if |us| == 1 then us[0]
    else
      var rest := Max(us[1..]);
      assert forall i :: 1 <= i < |us| ==> us[i] == us[1..][i - 1];
      if us[0] >= rest then us[0] else rest
  }

  /** `compute_u_max`: `None` for an empty task set, on which `max` raises. */
  function UMax(tasks: seq<Task>): (r: Option<real>)
    ensures r.None? <==> tasks == []
    ensures r.Some? ==> exists i :: 0 <= i < |tasks| && Util(tasks[i]) == r.value
    ensures r.Some? ==> forall i :: 0 <= i < |tasks| ==> Util(tasks[i]) <= r.value
  {
    if tasks == [] then None
    else
      var u := Max(Utils(tasks));
      assert forall i :: 0 <= i < |tasks| ==> Utils(tasks)[i] == Util(tasks[i]);
      assert exists i :: 0 <= i < |tasks| && Utils(tasks)[i] == u;
      Some(u)
  }

  /** `compute_system_utilization`: positive for any non-empty task set, and at least each task's utilisation. */
  function USum(tasks: seq<Task>): (r: real)
    ensures 0.0 <= r
    ensures forall i :: 0 <= i < |tasks| ==> 0.0 < Util(tasks[i]) <= r
  {
    var us := Utils(tasks);
    assert forall i :: 0 <= i < |tasks| ==> us[i] == Util(tasks[i]);
    SumBounds(us);
    Sum(us)
  }

  /** A sum of non-negative terms is at least each of them. */
  lemma {:induction false} SumBounds(us: seq<real>)
    requires forall i :: 0 <= i < |us| ==> us[i] >= 0.0
    ensures Sum(us) >= 0.0
    ensures forall i :: 0 <= i < |us| ==> us[i] <= Sum(us)
  {
    if us != [] {
      SumBounds(us[1..]);
      assert forall i :: 1 <= i < |us| ==> us[i] == us[1..][i - 1];
    }
  }

  /** The largest utilisation is at most the total. */
  lemma UMaxAtMostUSum(tasks: seq<Task>)
    requires tasks != []
    ensures 0.0 < UMax(tasks).value <= USum(tasks)
  {
    SumBounds(Utils(tasks));
  }

  // ---------------------------------------------------------------------------
  // Task-set properties
  // ---------------------------------------------------------------------------

  /** Every task's relative deadline equals its period. */
  predicate ImplicitDeadlines(tasks: seq<Task>) {
    forall i :: 0 <= i < |tasks| ==> tasks[i].deadline == tasks[i].period
  }

  /** `has_implicit_deadlines`: stops at the first task whose deadline differs from its period. */
  method HasImplicitDeadlines(tasks: seq<Task>) returns (b: bool)
    ensures b <==> ImplicitDeadlines(tasks)
  {
    for i := 0 to |tasks|
      invariant forall j :: 0 <= j < i ==> tasks[j].deadline == tasks[j].period
    {
      if tasks[i].deadline != tasks[i].period {
        return false;
      }
    }
    return true;
  }

  /** All tasks share one offset (vacuously so for an empty set). */
  predicate Synchronous(tasks: seq<Task>) {
    forall i, j :: 0 <= i < |tasks| && 0 <= j < |tasks| ==> tasks[i].offset == tasks[j].offset
  }

  /** `if_synchronous`: remembers the first task's offset and stops at the first task with another. */
  method IfSynchronous(tasks: seq<Task>) returns (b: bool)
    ensures b <==> Synchronous(tasks)
  {
    var offset: Option<nat> := None;
    for i := 0 to |tasks|
      invariant offset.None? <==> i == 0
      invariant offset.Some? ==> offset.value == tasks[0].offset
      invariant forall j :: 0 <= j < i ==> tasks[j].offset == tasks[0].offset
    {
      if offset.None? {
        offset := Some(tasks[i].offset);
      } else if tasks[i].offset != offset.value {
        assert tasks[i].offset != tasks[0].offset;
        return false;
      }
    }
    return true;
  }

  // ---------------------------------------------------------------------------
  // The utilisation tests
  // ---------------------------------------------------------------------------

  /**
   * `is_schedulable_partitioned_edf`: no task's utilisation exceeds 1 and the
   * total does not exceed `(m + 1) / 2` (true division). `None` for an empty
   * task set, on which `compute_u_max` raises.
   */
  function PartitionedEdfTest(tasks: seq<Task>, m: int): (r: Option<bool>)
    ensures r.None? <==> tasks == []
  {
    if tasks == [] then None
    else if UMax(tasks).value > 1.0 then Some(false)
    else if USum(tasks) > (m + 1) as real / 2.0 then Some(false)
    else Some(true)
  }

  /** On one core the partitioned test is the uniprocessor EDF bound: total utilisation at most 1. */
  lemma PartitionedSingleCore(tasks: seq<Task>)
    requires tasks != []
    ensures PartitionedEdfTest(tasks, 1) == Some(USum(tasks) <= 1.0)
  {
    UMaxAtMostUSum(tasks);
  }

  /**
   * `is_schedulable_sporadic_global_edf`: `U_sum <= m - (m - 1) * u_max`. On
   * one processor this is the uniprocessor bound `U_sum <= 1`; with a task of
   * utilisation 1 or more on `m >= 1` processors it admits a total of at most 1.
   */
  predicate SporadicGlobalTest(m: int, uMax: real, uSum: real): (b: bool)
    ensures m == 1 ==> (b <==> uSum <= 1.0)
    ensures m >= 1 && uMax >= 1.0 && b ==> uSum <= 1.0
  {
    assert m >= 1 && uMax >= 1.0 ==> (m - 1) as real * uMax >= (m - 1) as real;
    uSum <= m as real - (m - 1) as real * uMax
  }

  /**
   * `is_schedulable_periodic_global_edf`. Whenever the largest utilisation is
   * at most the total, the sporadic bound implies this one.
   */
  predicate PeriodicGlobalTest(m: int, uMax: real, uSum: real): (b: bool)
    ensures m >= 1 && 0.0 <= uMax <= uSum && SporadicGlobalTest(m, uMax, uSum) ==> b
  {
    assert m >= 1 && uMax >= 0.0 ==> (m - 1) as real * uMax >= 0.0;
    uMax <= 1.0 && uSum <= m as real
  }

  /** For any non-empty task set and `m >= 1`, the sporadic test implies the periodic test. */
  lemma SporadicImpliesPeriodic(tasks: seq<Task>, m: int)
    requires tasks != [] && m >= 1
    ensures SporadicGlobalTest(m, UMax(tasks).value, USum(tasks)) ==>
            PeriodicGlobalTest(m, UMax(tasks).value, USum(tasks))
  {
    UMaxAtMostUSum(tasks);
  }

  /** For `m >= 1` a set that passes the partitioned test also passes the periodic global test. */
  lemma PartitionedImpliesPeriodic(tasks: seq<Task>, m: int)
    requires tasks != [] && m >= 1
    ensures PartitionedEdfTest(tasks, m) == Some(true) ==>
            PeriodicGlobalTest(m, UMax(tasks).value, USum(tasks))
  {
  }

  // ---------------------------------------------------------------------------
  // The EDF(k) test
  // ---------------------------------------------------------------------------

  function Id(x: real): real {
    x
  }

  /** `task_utilizations.sort(reverse=True)`. */
  function SortedUtils(tasks: seq<Task>): (us: seq<real>)
    ensures |us| == |tasks|
    ensures multiset(us) == multiset(Utils(tasks))
  {
    SortBy(Utils(tasks), Id, Descending)
  }

  /**
   * The EDF^(k) test of Goossens, Funk and Baruah: with `U_k` the k-th largest
   * utilisation, the set is schedulable on `m` processors when
   * `m >= (k - 1) + U(tail) / (1 - U_k)`, `U(tail)` being the sum of the
   * utilisations after the k-th. `None` when `k` is not in `1..n` or
   * `U_k >= 1`, where the test says nothing.
   */
  function EdfKTest(tasks: seq<Task>, k: int, m: int): (r: Option<bool>)
    ensures r.Some? ==> 1 <= k <= |tasks| && SortedUtils(tasks)[k - 1] < 1.0
  {
    var us := SortedUtils(tasks);
    if k < 1 || k > |us| then None
    else
      var uk := us[k - 1];
      if uk >= 1.0 then None
      else Some(m as real >= (k - 1) as real + Sum(us[k..]) / (1.0 - uk))
  }

  /** `U_k` is the k-th largest utilisation: no utilisation before it is smaller, none after it larger. */
  lemma KthLargest(tasks: seq<Task>, k: int)
    requires 1 <= k <= |tasks|
    ensures forall i :: 0 <= i < k - 1 ==> SortedUtils(tasks)[i] >= SortedUtils(tasks)[k - 1]
    ensures forall i :: k - 1 < i < |tasks| ==> SortedUtils(tasks)[i] <= SortedUtils(tasks)[k - 1]
  {
    SortBySorted(Utils(tasks), Id, Descending);
  }

  lemma {:induction false} SumInsert(x: real, s: seq<real>)
    ensures Sum(Insert(x, s, Id, Descending)) == x + Sum(s)
  {
    if s == [] || InOrder(Descending, Id(x), Id(s[0])) {
      assert ([x] + s)[1..] == s;
    } else {
      var r := Insert(x, s[1..], Id, Descending);
      assert ([s[0]] + r)[1..] == r;
      SumInsert(x, s[1..]);
    }
  }

  /** Sorting keeps the sum. */
  lemma {:induction false} SumSorted(s: seq<real>)
    ensures Sum(SortBy(s, Id, Descending)) == Sum(s)
  {
    if s != [] {
      SumSorted(s[1..]);
      SumInsert(s[0], SortBy(s[1..], Id, Descending));
    }
  }

  /** The largest utilisation comes first once sorted. */
  lemma SortedUtilsHead(tasks: seq<Task>)
    requires tasks != []
    ensures SortedUtils(tasks)[0] == UMax(tasks).value
  {
    var us := SortedUtils(tasks);
    SortBySorted(Utils(tasks), Id, Descending);
    var u := UMax(tasks).value;
    assert us[0] in multiset(Utils(tasks));
    assert us[0] <= u;
    var i :| 0 <= i < |tasks| && Util(tasks[i]) == u;
    assert Utils(tasks)[i] == u;
    assert u in multiset(us);
    var j :| 0 <= j < |us| && us[j] == u;
    assert j == 0 || us[0] >= us[j];
  }

  /** For `d > 0`: `m >= a / d` exactly when `m * d >= a`. */
  lemma DivideBound(m: real, a: real, d: real)
    requires d > 0.0
    ensures m >= a / d <==> m * d >= a
  {
    assert a / d * d == a;
    if m >= a / d {
      assert m * d >= a / d * d;
    } else {
      assert m * d < a / d * d;
    }
  }

  /**
   * EDF(1) is plain global EDF, and its test is the sporadic global test:
   * `m >= U(tail) / (1 - u_max)` rearranges to `U_sum <= m - (m - 1) u_max`.
   */
  lemma EdfOneIsSporadicTest(tasks: seq<Task>, m: int)
    requires tasks != [] && UMax(tasks).value < 1.0
    ensures EdfKTest(tasks, 1, m) == Some(SporadicGlobalTest(m, UMax(tasks).value, USum(tasks)))
  {
    var us := SortedUtils(tasks);
    SortedUtilsHead(tasks);
    SumSorted(Utils(tasks));
    assert Sum(us) == us[0] + Sum(us[1..]);
    TailBound(m, us[0], Sum(us[1..]));
  }

  /** With `u < 1`: `m >= 0 + tail / (1 - u)` exactly when `u + tail <= m - (m - 1) u`. */
  lemma TailBound(m: int, u: real, tail: real)
    requires u < 1.0
    ensures (m as real >= (1 - 1) as real + tail / (1.0 - u)) == SporadicGlobalTest(m, u, u + tail)
  {
    var d := 1.0 - u;
    DivideBound(m as real, tail, d);
    assert m as real * d == m as real - m as real * u;
    assert (m - 1) as real * u == m as real * u - u;
  }

  /** More processors never turn a passing EDF(k) test into a failing one. */
  lemma EdfKMonotone(tasks: seq<Task>, k: int, m: int)
    ensures EdfKTest(tasks, k, m) == Some(true) ==> EdfKTest(tasks, k, m + 1) == Some(true)
  {
  }

  /**
   * The test as `edf_k_test_with_given_m` writes it: `U_k` is read with
   * Python's indexing (a negative index counts from the back, an index out of
   * range raises), the tail sum is `task_utilizations[:n - k - 1]` (the
   * largest utilisations, not the ones after the k-th), and the comparison is
   * `m == ...`. `None` where Python raises: `IndexError`, or
   * `ZeroDivisionError` when `U_k == 1`.
   */
  function EdfKTestAsWritten(tasks: seq<Task>, k: int, m: int): (r: Option<bool>)
    ensures r.Some? ==> -|tasks| <= k - 1 < |tasks|
  {
    var us := SortedUtils(tasks);
    var n := |us|;
    if k - 1 < -n || k - 1 >= n then None
    else
      var uk := if k - 1 >= 0 then us[k - 1] else us[n + k - 1];
      if uk == 1.0 then None
      else
        var tail := Sum(us[..Schedulers.PrefixLength(n, n - k - 1)]);
        Some(m as real == (k - 1) as real + tail / (1.0 - uk))
  }

  /** Utilisations `1/2` and `1/4`. */
  function HalfAndQuarter(): seq<Task> {
    [Task(1, 0, 1, 2, 2, false), Task(2, 0, 1, 4, 4, false)]
  }

  /**
   * Utilisations `[1/2, 1/4]`, `k = 1`, `m = 2`: the theorem accepts
   * (`2 >= 0 + (1/4) / (1/2)`), the code as written rejects
   * (`2 == 0 + 0 / (1/2)` is false: its slice `[:0]` is empty).
   */
  lemma EdfKAsWrittenRejects()
    ensures EdfKTestAsWritten(HalfAndQuarter(), 1, 2) == Some(false)
    ensures EdfKTest(HalfAndQuarter(), 1, 2) == Some(true)
  {
    var us := SortedUtils(HalfAndQuarter());
    HalfAndQuarterSorted();
    assert us[..Schedulers.PrefixLength(2, 0)] == [];
    assert us[1..] == [0.25];
  }

  lemma HalfAndQuarterSorted()
    ensures SortedUtils(HalfAndQuarter()) == [0.5, 0.25]
  {
    var s := [0.5, 0.25];
    UtilsHalfAndQuarter();
    assert s[0] == 0.5 && s[1..] == [0.25];
    assert SortBy([0.25], Id, Descending) == [0.25];
    assert SortBy(s, Id, Descending) == Insert(0.5, [0.25], Id, Descending);
  }

  lemma UtilsHalfAndQuarter()
    ensures Utils(HalfAndQuarter()) == [0.5, 0.25]
  {
    var ts := HalfAndQuarter();
    assert Util(ts[0]) == 0.5 && Util(ts[1]) == 0.25;
  }

  // ---------------------------------------------------------------------------
  // Orchestration
  // ---------------------------------------------------------------------------

  /** The tasks whose number is `id`, in task order. */
  function WithId(tasks: seq<Task>, id: int): seq<Task> {
    if tasks == [] then []
    else (if tasks[0].id == id then [tasks[0]] else []) + WithId(tasks[1..], id)
  }

  /**
   * The comprehension of main.py:26: for each task number of a core, in
   * order, every task carrying that number.
   */
  function Rebuild(core: seq<int>, tasks: seq<Task>): seq<Task> {
    if core == [] then [] else WithId(tasks, core[0]) + Rebuild(core[1..], tasks)
  }

  predicate UniqueIds(tasks: seq<Task>) {
    forall i, j :: 0 <= i < j < |tasks| ==> tasks[i].id != tasks[j].id
  }

  predicate HasId(tasks: seq<Task>, id: int) {
    exists i :: 0 <= i < |tasks| && tasks[i].id == id
  }

  lemma {:induction false} WithIdSingle(tasks: seq<Task>, id: int)
    requires UniqueIds(tasks) && HasId(tasks, id)
    ensures |WithId(tasks, id)| == 1 && WithId(tasks, id)[0].id == id && WithId(tasks, id)[0] in tasks
  {
    var i :| 0 <= i < |tasks| && tasks[i].id == id;
    if i == 0 {
      WithIdAbsent(tasks[1..], id);
    } else {
      assert tasks[1..][i - 1].id == id;
      WithIdSingle(tasks[1..], id);
    }
  }

  lemma {:induction false} WithIdAbsent(tasks: seq<Task>, id: int)
    requires !HasId(tasks, id)
    ensures WithId(tasks, id) == []
  {
    if tasks != [] {
      assert !HasId(tasks[1..], id) by {
        forall i | 0 <= i < |tasks[1..]|
          ensures tasks[1..][i].id != id
        {
          assert tasks[1..][i] == tasks[i + 1];
        }
      }
      WithIdAbsent(tasks[1..], id);
    }
  }

  /** The tasks selected for a number are input tasks carrying that number. */
  lemma {:induction false} WithIdFromTasks(tasks: seq<Task>, id: int)
    ensures forall t :: t in WithId(tasks, id) ==> t in tasks && t.id == id
  {
    if tasks != [] {
      WithIdFromTasks(tasks[1..], id);
      assert forall t :: t in tasks[1..] ==> t in tasks;
    }
  }

  /** A rebuilt core holds only input tasks, whatever the task numbers. */
  lemma {:induction false} RebuildFromTasks(core: seq<int>, tasks: seq<Task>)
    ensures forall t :: t in Rebuild(core, tasks) ==> t in tasks
  {
    if core != [] {
      WithIdFromTasks(tasks, core[0]);
      RebuildFromTasks(core[1..], tasks);
    }
  }

  /**
   * With distinct task numbers, each of which the core names, the rebuilt
   * core holds one task per number, with that number, in the core's order.
   */
  lemma {:induction false} RebuildKeepsIds(core: seq<int>, tasks: seq<Task>)
    requires UniqueIds(tasks) && forall i :: 0 <= i < |core| ==> HasId(tasks, core[i])
    ensures |Rebuild(core, tasks)| == |core|
    ensures forall i :: 0 <= i < |core| ==> Rebuild(core, tasks)[i].id == core[i] && Rebuild(core, tasks)[i] in tasks
  {
    if core != [] {
      var tail := core[1..];
      assert forall i :: 0 <= i < |tail| ==> tail[i] == core[i + 1];
      WithIdSingle(tasks, core[0]);
      RebuildKeepsIds(tail, tasks);
      var head: seq<Task>, rest: seq<Task> := WithId(tasks, core[0]), Rebuild(tail, tasks);
      assert Rebuild(core, tasks) == head + rest;
      forall i | 0 <= i < |core|
        ensures (head + rest)[i].id == core[i] && (head + rest)[i] in tasks
      {
        if i > 0 {
          assert (head + rest)[i] == rest[i - 1];
        }
      }
    }
  }

  /** Each rebuilt core holds one task per number of its core, with that number, in order. */
  predicate SameIds(cores: seq<seq<Task>>, ids: seq<seq<int>>) {
    && |cores| == |ids|
    && forall c :: 0 <= c < |ids| ==>
      |cores[c]| == |ids[c]| && forall k :: 0 <= k < |ids[c]| ==> cores[c][k].id == ids[c][k]
  }

  /** `RebuildKeepsIds`, core by core. */
  lemma RebuildEachKeepsIds(cores: seq<seq<Task>>, ids: seq<seq<int>>, tasks: seq<Task>)
    requires UniqueIds(tasks)
    requires forall c, k :: 0 <= c < |ids| && 0 <= k < |ids[c]| ==> HasId(tasks, ids[c][k])
    requires |cores| == |ids| && forall c :: 0 <= c < |ids| ==> cores[c] == Rebuild(ids[c], tasks)
    ensures SameIds(cores, ids)
  {
    forall c | 0 <= c < |ids|
      ensures |cores[c]| == |ids[c]|
      ensures forall k :: 0 <= k < |ids[c]| ==> cores[c][k].id == ids[c][k]
    {
      RebuildKeepsIds(ids[c], tasks);
    }
  }

  /** Every number in a partitioned core is the number of an input task, so `RebuildKeepsIds` applies to each core. */
  lemma PartitionIdsFromTasks(tasks: seq<Task>, tag: Partitioner.SortTag, m: nat, assign: seq<nat>)
    requires |assign| <= |Partitioner.SortItems(Partitioner.Items(tasks), tag)|
    ensures var ids := Partitioner.Cores(Partitioner.SortItems(Partitioner.Items(tasks), tag), assign, m);
      forall c, k :: 0 <= c < m && 0 <= k < |ids[c]| ==> HasId(tasks, ids[c][k])
  {
    var given := Partitioner.Items(tasks);
    var items := Partitioner.SortItems(given, tag);
    Partitioner.CoresFromItems(items, assign, m);
    Partitioner.SortItemsIds(given, tag);
    forall v | v in Partitioner.Ids(items)
      ensures HasId(tasks, v)
    {
      assert v in multiset(Partitioner.Ids(given));
      var i :| 0 <= i < |tasks| && Partitioner.Ids(given)[i] == v;
      assert tasks[i].id == v;
    }
  }

  /** The loop of `schedule_partitioned_edf` that turns each core's task numbers back into tasks. */
  method RebuildCores(ids: seq<seq<int>>, tasks: seq<Task>) returns (cores: seq<seq<Task>>)
    ensures |cores| == |ids|
    ensures forall c :: 0 <= c < |ids| ==> cores[c] == Rebuild(ids[c], tasks)
    ensures forall c :: 0 <= c < |cores| ==> forall t :: t in cores[c] ==> t in tasks
  {
    cores := [];
    for c := 0 to |ids|
      invariant |cores| == c
      invariant forall j :: 0 <= j < c ==> cores[j] == Rebuild(ids[j], tasks)
      invariant forall j :: 0 <= j < c ==> forall t :: t in cores[j] ==> t in tasks
    {
      RebuildFromTasks(ids[c], tasks);
      cores := cores + [Rebuild(ids[c], tasks)];
    }
  }

  /**
   * `schedule_partitioned_edf` up to its per-core tests: partition, rebuild
   * each core's tasks from their numbers, and answer code 3 when partitioning
   * fails. When it succeeds the source goes on to per-core tests that are not
   * part of this model; `verdict` is then `None`.
   */
  method SchedulePartitionedEdf(tasks: seq<Task>, m: nat, h: Partitioner.Heuristic, tag: Partitioner.SortTag)
    returns (cores: seq<seq<Task>>, verdict: Option<Verdict>, ghost assign: seq<nat>)
    ensures |assign| <= |Partitioner.SortItems(Partitioner.Items(tasks), tag)|
    ensures var items := Partitioner.SortItems(Partitioner.Items(tasks), tag);
      var ids := Partitioner.Cores(items, assign, m);
      && Partitioner.Packing(h, items, m, assign, ids, |assign| == |items|)
      && |cores| == |ids|
      && (forall c :: 0 <= c < |ids| ==> cores[c] == Rebuild(ids[c], tasks))
      && (verdict == Some(NotSchedulableWithoutSimulation) <==> |assign| < |items|)
      && (verdict.Some? ==> verdict == Some(NotSchedulableWithoutSimulation))
    ensures |cores| == m
    ensures forall c :: 0 <= c < |cores| ==> forall t :: t in cores[c] ==> t in tasks
    ensures UniqueIds(tasks) ==>
      SameIds(cores, Partitioner.Cores(Partitioner.SortItems(Partitioner.Items(tasks), tag), assign, m))
  {
    var ids, ok;
    ids, ok, assign := Partitioner.Partition(tasks, tag, h, m);
    cores := RebuildCores(ids, tasks);
    if UniqueIds(tasks) {
      PartitionIdsFromTasks(tasks, tag, m, assign);
      RebuildEachKeepsIds(cores, ids, tasks);
    }
    verdict := if ok then None else Some(NotSchedulableWithoutSimulation);
  }

  /**
   * `schedule_global_edf` as written: a simulation result of 0 gives code 0,
   * and one of 2 (a deadline miss) gives code 1, "schedulable without
   * simulation". Any other result gives no code (`None`).
   */
  function GlobalVerdictAsWritten(o: Simulator.Outcome): (r: Option<Verdict>)
    ensures r.None? <==> o == Simulator.RemoveFailed
    ensures r.Some? ==> Code(r.value) == if o == Simulator.Schedulable then 0 else 1
  {
    match o
    case Schedulable => Some(SchedulableWithSimulation)
    case DeadlineMiss => Some(SchedulableWithoutSimulation)
    case RemoveFailed => None
  }

  /**
   * The mapping as intended: a deadline miss gives code 2, "not schedulable
   * with simulation", so that the code is the simulation's own result.
   */
  function GlobalVerdict(o: Simulator.Outcome): (r: Option<Verdict>)
    ensures r.None? <==> o == Simulator.RemoveFailed
    ensures r.Some? ==> Code(r.value) == if o == Simulator.Schedulable then 0 else 2
  {
    match o
    case Schedulable => Some(SchedulableWithSimulation)
    case DeadlineMiss => Some(NotSchedulableWithSimulation)
    case RemoveFailed => None
  }

  /** `schedule_global_edf(tasks, m, ..., t_max)`, with the intended mapping. */
  method ScheduleGlobalEdf(tasks: seq<Task>, m: nat, spawn: TaskSet.Spawner, tMax: int) returns (v: Option<Verdict>)
    ensures v == Some(SchedulableWithSimulation) <==>
      forall t: nat :: t <= tMax ==> Simulator.Completes(tasks, m, spawn, t)
    ensures v == Some(NotSchedulableWithSimulation) <==>
      exists t: nat :: t <= tMax && Simulator.MissAt(tasks, m, spawn, t)
  {
    var o := Simulator.Simulate(tasks, m, spawn, tMax);
    Simulator.SimulationSchedulable(tasks, m, spawn, tMax);
    Simulator.SimulationMisses(tasks, m, spawn, tMax);
    v := GlobalVerdict(o);
  }

  /** As written, every run that observes a deadline miss is reported as schedulable. */
  lemma GlobalAsWrittenHidesMiss(tasks: seq<Task>, m: nat, spawn: TaskSet.Spawner, tMax: int)
    requires exists t: nat :: t <= tMax && Simulator.MissAt(tasks, m, spawn, t)
    ensures GlobalVerdictAsWritten(Simulator.Simulation(tasks, m, spawn, tMax)) == Some(SchedulableWithoutSimulation)
  {
    Simulator.SimulationMisses(tasks, m, spawn, tMax);
  }

  /**
   * A witness for `GlobalAsWrittenHidesMiss`: one task of utilisation 1/2 on
   * one processor misses a deadline in the simulation (its job is not resumed
   * on its own slot), and the mapping as written reports it schedulable.
   */
  lemma HalfLoadReportedSchedulable()
    ensures USum(Simulator.HalfLoad()) == 0.5
    ensures Simulator.Simulation(Simulator.HalfLoad(), 1, Simulator.SpawnDue(), 3) == Simulator.DeadlineMiss
    ensures GlobalVerdictAsWritten(Simulator.Simulation(Simulator.HalfLoad(), 1, Simulator.SpawnDue(), 3))
      == Some(SchedulableWithoutSimulation)
  {
    var tasks := Simulator.HalfLoad();
    assert Utils(tasks) == [0.5];
    assert Sum([0.5]) == 0.5 + Sum([]);
    Simulator.HalfLoadMisses();
    GlobalAsWrittenHidesMiss(tasks, 1, Simulator.SpawnDue(), 3);
  }

  /**
   * The EDF(k) branch of `schedule`: fewer than `k` tasks give code 4; any
   * other `k` goes to a simulation whose result is discarded (`None`).
   */
  function ScheduleEdfK(tasks: seq<Task>, k: int): (r: Option<Verdict>)
    ensures r.Some? <==> k > |tasks|
    ensures r.Some? ==> Code(r.value) == 4
  {
    if k > |tasks| then Some(CannotTell) else None
  }

  /** Past the `k > n` guard, with `k >= 1`, the EDF(k) test is undefined only when `U_k >= 1`. */
  lemma GuardKeepsEdfKDefined(tasks: seq<Task>, k: int, m: int)
    requires k >= 1
    ensures ScheduleEdfK(tasks, k) == Some(CannotTell) <==> k > |tasks|
    ensures ScheduleEdfK(tasks, k).None? ==> (EdfKTest(tasks, k, m).None? <==> SortedUtils(tasks)[k - 1] >= 1.0)
  {
  }
}
