/**
 * The discrete-time global-EDF simulator (`simulate`, core.py:45-88).
 *
 * The source keeps Python job objects in a queue and in an `m`-slot list
 * `processor_load`, and mutates the jobs themselves through `schedule(1)`. A
 * job's identity matters there (the same object sits in the queue and in a
 * slot), so the model keeps every job released so far in a `heap`, indexed by
 * the order of release, and the queue and the slots hold indices into it.
 * Executing a job replaces its heap entry.
 *
 * Each tick `t` of `0..t_max`:
 *   1. the jobs released at `t` are appended to the queue;
 *   2. if a queued job has missed its deadline, the run stops with 2;
 *   3. every slot whose job is complete is cleared and that job removed from
 *      the queue (Python's `list.remove` raises `ValueError` when the job is
 *      no longer there: the outcome `RemoveFailed`);
 *   4. the `m` earliest-deadline queued jobs are elected;
 *   5. each elected job, in deadline order, takes the first slot that is
 *      empty or holds a job with a strictly later deadline, and executes one
 *      unit; a job that finds no such slot does not run this tick.
 * After the last tick the result is 0.
 *
 * Step 5 does not look for the job among the slots first: a job already on a
 * slot that is elected again moves on to the next empty slot and then sits in
 * two slots. `PlaceMayDuplicate` and `FreeFailsOnDuplicate` show the two
 * halves of this: the second slot is later freed for a job already removed.
 * Nor does a slot take back its own job, whose deadline is not strictly
 * earlier than itself. With one processor, a job on the slot is therefore not
 * run again while it stays there; it resumes only after a job with an earlier
 * deadline has taken the slot and been freed, which never happens in the
 * one-task run of `HalfLoadMisses`. With more processors, it can run on another
 * empty slot instead, as above.
 */
module Simulator {
  import opened TaskModel
  import opened TaskSet
  import opened Schedulers

  /** 0, 2, or the `ValueError` of `queue.remove`. */
  datatype Outcome = Schedulable | DeadlineMiss | RemoveFailed

  /** Every job released so far, the queue and the processor slots, as heap indices. */
  datatype State = State(heap: seq<Job>, queue: seq<nat>, slots: seq<Option<nat>>)

  datatype Step = Running(state: State) | Stopped(outcome: Outcome)

  predicate IdsBelow(ids: seq<nat>, n: nat) {
    forall k :: 0 <= k < |ids| ==> ids[k] < n
  }

  predicate SlotsBelow(slots: seq<Option<nat>>, n: nat) {
    forall i :: 0 <= i < |slots| && slots[i].Some? ==> slots[i].value < n
  }

  /** No job is queued twice. */
  ghost predicate Unique(ids: seq<nat>) {
    forall x :: multiset(ids)[x] <= 1
  }

  /** `m` slots, and the queue and the slots refer to released jobs, the queue to each at most once. */
  ghost predicate Valid(s: State, m: nat) {
    |s.slots| == m && IdsBelow(s.queue, |s.heap|) && Unique(s.queue) && SlotsBelow(s.slots, |s.heap|)
  }

  function Init(m: nat): (s: State)
    ensures Valid(s, m)
  {
    var none: seq<Option<nat>> := seq(m, _ => None);
    State([], [], none)
  }

  // ---------------------------------------------------------------------------
  // Step 1: release
  // ---------------------------------------------------------------------------

  /** The identities of `k` jobs appended to a heap of `n`. */
  function Fresh(n: nat, k: nat): (ids: seq<nat>)
    ensures |ids| == k
    ensures forall i :: 0 <= i < k ==> ids[i] == n + i
    ensures Unique(ids)
  {
    if k == 0 then []
    else
      var front := Fresh(n, k - 1);
      assert n + k - 1 !in front;
      front + [n + k - 1]
  }

  /** `queue += taskset.release_jobs(t)`. */
  function Enqueue(s: State, jobs: seq<Job>): State {
    State(s.heap + jobs, s.queue + Fresh(|s.heap|, |jobs|), s.slots)
  }

  lemma EnqueueValid(s: State, m: nat, jobs: seq<Job>)
    requires Valid(s, m)
    ensures Valid(Enqueue(s, jobs), m)
  {
    var added := Fresh(|s.heap|, |jobs|);
    var q := s.queue + added;
    forall x
      ensures multiset(q)[x] <= 1
    {
      if x in s.queue {
        assert x !in added;
      }
    }
  }

  // ---------------------------------------------------------------------------
  // Step 2: deadline check
  // ---------------------------------------------------------------------------

  /** Some queued job has missed its deadline at `t`. */
  predicate SomeMissed(heap: seq<Job>, queue: seq<nat>, t: int) {
    exists k :: 0 <= k < |queue| && queue[k] < |heap| && DeadlineMissed(heap[queue[k]], t)
  }

  method FindMissed(heap: seq<Job>, queue: seq<nat>, t: int) returns (missed: bool)
    requires IdsBelow(queue, |heap|)
    ensures missed <==> SomeMissed(heap, queue, t)
  {
    for k := 0 to |queue|
      invariant forall b :: 0 <= b < k ==> !DeadlineMissed(heap[queue[b]], t)
    {
      if DeadlineMissed(heap[queue[k]], t) {
        return true;
      }
    }
    return false;
  }

  // ---------------------------------------------------------------------------
  // Step 3: freeing slots
  // ---------------------------------------------------------------------------

  /** `list.remove`: drops the first occurrence; `None` stands for the `ValueError` when there is none. */
  function RemoveFirst(q: seq<nat>, x: nat): (r: Option<seq<nat>>)
    ensures r.None? <==> x !in q
    ensures r.Some? ==> multiset(r.value) == multiset(q) - multiset{x}
    ensures r.Some? ==> |r.value| == |q| - 1
  {
    if q == [] then None
    else if q[0] == x then
      assert q == [q[0]] + q[1..];
      Some(q[1..])
    else
      match RemoveFirst(q[1..], x)
      case None => None
      case Some(rest) =>
        assert q == [q[0]] + q[1..];
        Some([q[0]] + rest)
  }

  /** It is the first occurrence that goes, and the rest of the queue keeps its order. */
  lemma {:induction false} RemoveFirstOrder(q: seq<nat>, x: nat)
    ensures var r := RemoveFirst(q, x);
      r.Some? ==> exists i :: 0 <= i < |q| && q[i] == x && x !in q[..i] && r.value == q[..i] + q[i + 1..]
  {
    if q == [] {
    } else if q[0] == x {
      assert q[..0] + q[1..] == q[1..];
    } else if RemoveFirst(q[1..], x).Some? {
      RemoveFirstOrder(q[1..], x);
      var i :| 0 <= i < |q[1..]| && q[1..][i] == x && x !in q[1..][..i] &&
        RemoveFirst(q[1..], x).value == q[1..][..i] + q[1..][i + 1..];
      RemoveFirstPastHead(q, x, i, RemoveFirst(q[1..], x).value);
    }
  }

  /** The step of `RemoveFirstOrder` past a head that is not `x`. */
  lemma RemoveFirstPastHead(q: seq<nat>, x: nat, i: nat, rest: seq<nat>)
    requires 0 <= i < |q| - 1 && q[0] != x && q[i + 1] == x && x !in q[1..][..i]
    requires rest == q[1..][..i] + q[1..][i + 1..]
    ensures x !in q[..i + 1]
    ensures [q[0]] + rest == q[..i + 1] + q[i + 2..]
  {
    assert q[..i + 1] == [q[0]] + q[1..][..i];
    assert q[i + 2..] == q[1..][i + 1..];
  }

  /**
   * `processor_load[i] and processor_load[i].is_complete()`. On the states a
   * run reaches every slot refers to a released job (`BeforeValid`); the
   * bound only makes the predicate total.
   */
  predicate Done(heap: seq<Job>, slot: Option<nat>) {
    slot.Some? && slot.value < |heap| && IsComplete(heap[slot.value])
  }

  /** The jobs of the slots whose job is complete, in slot order. */
  function Freed(heap: seq<Job>, slots: seq<Option<nat>>): seq<nat> {
    if slots == [] then []
    else (if Done(heap, slots[0]) then [slots[0].value] else []) + Freed(heap, slots[1..])
  }

  /**
   * Slots `i..` of the freeing pass: each slot whose job is complete is
   * cleared and its job removed from the queue; a removal that finds the job
   * gone fails the pass (`None`, the `ValueError` of `list.remove`).
   */
  function FreeFrom(heap: seq<Job>, queue: seq<nat>, slots: seq<Option<nat>>, i: nat)
    : (r: Option<(seq<nat>, seq<Option<nat>>)>)
    requires i <= |slots|
    decreases |slots| - i
    ensures r.Some? ==> |r.value.1| == |slots|
  {
    if i == |slots| then Some((queue, slots))
    else if Done(heap, slots[i]) then
      match RemoveFirst(queue, slots[i].value)
      case None => None
      case Some(q) => FreeFrom(heap, q, slots[i := None], i + 1)
    else FreeFrom(heap, queue, slots, i + 1)
  }

  /**
   * On success exactly the slots from `i` on whose job is complete are
   * cleared; the pass fails only at a complete job.
   */
  lemma {:induction false} FreeFromClears(heap: seq<Job>, queue: seq<nat>, slots: seq<Option<nat>>, i: nat)
    requires i <= |slots|
    ensures var r := FreeFrom(heap, queue, slots, i);
      r.Some? ==> forall c :: 0 <= c < |slots| ==>
        r.value.1[c] == if i <= c && Done(heap, slots[c]) then None else slots[c]
    ensures FreeFrom(heap, queue, slots, i).None? ==> exists c :: i <= c < |slots| && Done(heap, slots[c])
    decreases |slots| - i
  {
    if i < |slots| {
      if Done(heap, slots[i]) {
        match RemoveFirst(queue, slots[i].value)
        case None =>
        case Some(q) =>
          var cleared := slots[i := None];
          FreeFromClears(heap, q, cleared, i + 1);
      } else {
        FreeFromClears(heap, queue, slots, i + 1);
      }
    }
  }

  /** A slot is cleared only with its job's removal: the queue loses exactly the jobs of the cleared slots. */
  lemma {:induction false} FreeFromQueue(heap: seq<Job>, queue: seq<nat>, slots: seq<Option<nat>>, i: nat)
    requires i <= |slots| && FreeFrom(heap, queue, slots, i).Some?
    ensures multiset(FreeFrom(heap, queue, slots, i).value.0) + multiset(Freed(heap, slots[i..])) == multiset(queue)
    decreases |slots| - i
  {
    if i < |slots| {
      assert slots[i..] == [slots[i]] + slots[i + 1..];
      if Done(heap, slots[i]) {
        var x := slots[i].value;
        var q := RemoveFirst(queue, x).value;
        var cleared := slots[i := None];
        assert cleared[i + 1..] == slots[i + 1..];
        FreeFromQueue(heap, q, cleared, i + 1);
        assert Freed(heap, slots[i..]) == [x] + Freed(heap, slots[i + 1..]);
        assert x in multiset(queue);
        assert multiset(q) + multiset{x} == multiset(queue);
      } else {
        FreeFromQueue(heap, queue, slots, i + 1);
        assert Freed(heap, slots[i..]) == Freed(heap, slots[i + 1..]);
      }
    }
  }

  /** One slot of the freeing pass. */
  lemma FreeFromNext(heap: seq<Job>, queue: seq<nat>, slots: seq<Option<nat>>, i: nat)
    requires i < |slots|
    ensures !Done(heap, slots[i]) ==> FreeFrom(heap, queue, slots, i) == FreeFrom(heap, queue, slots, i + 1)
    ensures Done(heap, slots[i]) ==>
      FreeFrom(heap, queue, slots, i) ==
        match RemoveFirst(queue, slots[i].value)
        case None => None
        case Some(q) => FreeFrom(heap, q, slots[i := None], i + 1)
  {
  }

  method FreeCompleted(heap: seq<Job>, queue: seq<nat>, slots: array<Option<nat>>) returns (q: seq<nat>, ok: bool)
    requires SlotsBelow(slots[..], |heap|)
    modifies slots
    ensures var r := FreeFrom(heap, queue, old(slots[..]), 0);
      ok == r.Some? && (ok ==> (q, slots[..]) == r.value)
  {
    q := queue;
    for i := 0 to slots.Length
      invariant SlotsBelow(slots[..], |heap|)
      invariant FreeFrom(heap, q, slots[..], i) == FreeFrom(heap, queue, old(slots[..]), 0)
    {
      FreeFromNext(heap, q, slots[..], i);
      if slots[i].Some? && IsComplete(heap[slots[i].value]) {
        var removed := RemoveFirst(q, slots[i].value);
        if removed.None? {
          return q, false;
        }
        q := removed.value;
        slots[i] := None;
      }
    }
    assert FreeFrom(heap, q, slots[..], slots.Length) == Some((q, slots[..]));
    return q, true;
  }

  // ---------------------------------------------------------------------------
  // Steps 4 and 5: election and assignment
  // ---------------------------------------------------------------------------

  /** The key `lambda job: job.deadline`, on heap indices. */
  function DeadlineOf(heap: seq<Job>): nat -> int {
    (id: nat) => if id < |heap| then heap[id].deadline else 0
  }

  /** Slot `c` takes job `id`: it is empty, or its job's deadline is strictly later. */
  predicate Accepts(heap: seq<Job>, slots: seq<Option<nat>>, id: nat, c: nat)
    requires id < |heap| && c < |slots|
  {
    slots[c].None? || (slots[c].value < |heap| && heap[id].deadline < heap[slots[c].value].deadline)
  }

  /** Slot `c` is the first from `i` on that accepts job `id`. */
  predicate FirstAccepting(heap: seq<Job>, slots: seq<Option<nat>>, id: nat, i: nat, c: nat)
    requires id < |heap|
  {
    i <= c < |slots| && Accepts(heap, slots, id, c) &&
    forall b :: i <= b < c ==> !Accepts(heap, slots, id, b)
  }

  /**
   * The inner loop for one elected job, from slot `i` on: the first slot that
   * accepts it gets it and the job executes one unit; without such a slot
   * nothing changes.
   */
  function Place(heap: seq<Job>, slots: seq<Option<nat>>, id: nat, i: nat): (r: (seq<Job>, seq<Option<nat>>))
    requires id < |heap| && i <= |slots|
    decreases |slots| - i
    ensures |r.0| == |heap| && |r.1| == |slots|
    ensures SlotsBelow(slots, |heap|) ==> SlotsBelow(r.1, |heap|)
    ensures r.0 == heap || r.0 == heap[id := Schedule(heap[id], 1)]
    ensures (forall c :: i <= c < |slots| ==> !Accepts(heap, slots, id, c)) ==> r == (heap, slots)
    ensures forall c: nat :: FirstAccepting(heap, slots, id, i, c) ==>
                        r == (heap[id := Schedule(heap[id], 1)], slots[c := Some(id)])
  {
    if i == |slots| then (heap, slots)
    else if Accepts(heap, slots, id, i) then
      assert forall c: nat :: FirstAccepting(heap, slots, id, i, c) ==> c == i;
      (heap[id := Schedule(heap[id], 1)], slots[i := Some(id)])
    else
      assert forall c: nat :: FirstAccepting(heap, slots, id, i, c) ==> FirstAccepting(heap, slots, id, i + 1, c);
      Place(heap, slots, id, i + 1)
  }

  /**
   * The outer loop, from the `j`-th elected job on. Elected jobs are always
   * released ones (`TickValid`); the bound only makes the function total.
   */
  function AssignAll(heap: seq<Job>, slots: seq<Option<nat>>, elected: seq<nat>, j: nat): (r: (seq<Job>, seq<Option<nat>>))
    requires j <= |elected|
    decreases |elected| - j
    ensures |r.0| == |heap| && |r.1| == |slots|
    ensures SlotsBelow(slots, |heap|) ==> SlotsBelow(r.1, |heap|)
  {
    if j == |elected| then (heap, slots)
    else
      var placed := if elected[j] < |heap| then Place(heap, slots, elected[j], 0) else (heap, slots);
      AssignAll(placed.0, placed.1, elected, j + 1)
  }

  method AssignElected(heap: seq<Job>, slots: array<Option<nat>>, elected: seq<nat>) returns (h: seq<Job>)
    requires SlotsBelow(slots[..], |heap|) && IdsBelow(elected, |heap|)
    modifies slots
    ensures (h, slots[..]) == AssignAll(heap, old(slots[..]), elected, 0)
  {
    h := heap;
    for j := 0 to |elected|
      invariant |h| == |heap| && SlotsBelow(slots[..], |h|)
      invariant AssignAll(h, slots[..], elected, j) == AssignAll(heap, old(slots[..]), elected, 0)
    {
      var id := elected[j];
      ghost var h0, s0 := h, slots[..];
      var i := 0;
      while i < slots.Length
        invariant 0 <= i <= slots.Length
        invariant h == h0 && slots[..] == s0
        invariant Place(h0, s0, id, i) == Place(h0, s0, id, 0)
      {
        if slots[i].None? || h[id].deadline < h[slots[i].value].deadline {
          slots[i] := Some(id);
          h := h[id := Schedule(h[id], 1)];
          break;
        }
        i := i + 1;
      }
      assert (h, slots[..]) == Place(h0, s0, id, 0);
    }
  }

  /** Ids below `n`, each at most once, stay so in any sub-multiset. */
  lemma SubIds(a: seq<nat>, b: seq<nat>, n: nat)
    requires multiset(a) <= multiset(b) && IdsBelow(b, n) && Unique(b)
    ensures IdsBelow(a, n) && Unique(a)
  {
    forall k | 0 <= k < |a|
      ensures a[k] < n
    {
      assert a[k] in multiset(a);
      assert a[k] in b;
    }
    forall x
      ensures multiset(a)[x] <= 1
    {
      assert multiset(a)[x] <= multiset(b)[x];
    }
  }

  // ---------------------------------------------------------------------------
  // One tick
  // ---------------------------------------------------------------------------

  /** The deadline check of tick `t`, on the state the tick starts from, after the release. */
  predicate MissObserved(tasks: seq<Task>, spawn: Spawner, t: int, s: State) {
    var s1 := Enqueue(s, Released(tasks, t, spawn));
    SomeMissed(s1.heap, s1.queue, t)
  }

  /** Tick `t` of the loop body (core.py:63-86). */
  function Tick(tasks: seq<Task>, m: nat, spawn: Spawner, t: int, s: State): (r: Step)
    ensures r == Stopped(DeadlineMiss) <==> MissObserved(tasks, spawn, t, s)
    ensures r != Stopped(Schedulable)
  {
    var s1 := Enqueue(s, Released(tasks, t, spawn));
    if SomeMissed(s1.heap, s1.queue, t) then Stopped(DeadlineMiss)
    else
      match FreeFrom(s1.heap, s1.queue, s1.slots, 0)
      case None => Stopped(RemoveFailed)
      case Some(freed) =>
        var elected := GlobalEdfScheduler(freed.0, DeadlineOf(s1.heap), m);
        var placed := AssignAll(s1.heap, freed.1, elected, 0);
        Running(State(placed.0, freed.0, placed.1))
  }

  /** The freeing pass keeps the state valid. */
  lemma FreeFromValid(s: State, m: nat)
    requires Valid(s, m) && FreeFrom(s.heap, s.queue, s.slots, 0).Some?
    ensures var freed := FreeFrom(s.heap, s.queue, s.slots, 0).value;
      Valid(State(s.heap, freed.0, freed.1), m)
  {
    var freed := FreeFrom(s.heap, s.queue, s.slots, 0).value;
    FreeFromQueue(s.heap, s.queue, s.slots, 0);
    FreeFromClears(s.heap, s.queue, s.slots, 0);
    SubIds(freed.0, s.queue, |s.heap|);
  }

  /** A tick keeps the state valid: `m` slots, and the queue and slots refer to released jobs, the queue to each once. */
  lemma TickValid(tasks: seq<Task>, m: nat, spawn: Spawner, t: int, s: State)
    requires Valid(s, m) && Tick(tasks, m, spawn, t, s).Running?
    ensures Valid(Tick(tasks, m, spawn, t, s).state, m)
    ensures |Tick(tasks, m, spawn, t, s).state.heap| == |s.heap| + |Released(tasks, t, spawn)|
  {
    var s1 := Enqueue(s, Released(tasks, t, spawn));
    EnqueueValid(s, m, Released(tasks, t, spawn));
    FreeFromValid(s1, m);
  }

  /** The body of the tick loop: how tick `t` stops the run, or the state it leaves. */
  method RunTick(tasks: seq<Task>, m: nat, spawn: Spawner, t: int, heap: seq<Job>, queue: seq<nat>,
                 slots: array<Option<nat>>)
    returns (stop: Option<Outcome>, heap': seq<Job>, queue': seq<nat>)
    requires Valid(State(heap, queue, slots[..]), m)
    modifies slots
    ensures var r := Tick(tasks, m, spawn, t, State(heap, queue, old(slots[..])));
      match stop
      case Some(o) => r == Stopped(o)
      case None => r == Running(State(heap', queue', slots[..]))
  {
    ghost var s := State(heap, queue, slots[..]);
    var released := ReleaseJobs(tasks, t, spawn);
    queue' := queue + Fresh(|heap|, |released|);
    heap' := heap + released;
    EnqueueValid(s, m, released);
    assert State(heap', queue', slots[..]) == Enqueue(s, released);
    var missed := FindMissed(heap', queue', t);
    if missed {
      return Some(DeadlineMiss), heap', queue';
    }
    ghost var s1 := State(heap', queue', slots[..]);
    var ok;
    queue', ok := FreeCompleted(heap', queue', slots);
    if !ok {
      return Some(RemoveFailed), heap', queue';
    }
    FreeFromValid(s1, m);
    assert Valid(State(heap', queue', slots[..]), m);
    var elected := GlobalEdfScheduler(queue', DeadlineOf(heap'), m);
    SubIds(elected, queue', |heap'|);
    heap' := AssignElected(heap', slots, elected);
    stop := None;
  }

  // ---------------------------------------------------------------------------
  // The run
  // ---------------------------------------------------------------------------

  /** The state before tick `n` of a run of `tick` from `init`, or how the run stopped at an earlier tick. */
  function Iterate(tick: (nat, State) -> Step, init: State, n: nat): Step {
    if n == 0 then Running(init)
    else
      match Iterate(tick, init, n - 1)
      case Stopped(o) => Stopped(o)
      case Running(s) => tick(n - 1, s)
  }

  lemma IterateNext(tick: (nat, State) -> Step, init: State, n: nat)
    ensures Iterate(tick, init, n + 1) ==
      match Iterate(tick, init, n)
      case Stopped(o) => Stopped(o)
      case Running(s) => tick(n, s)
  {
  }

  /** Once a run has stopped, it stays stopped with the same outcome. */
  lemma {:induction false} StoppedPersists(tick: (nat, State) -> Step, init: State, n: nat, k: nat)
    requires n <= k && Iterate(tick, init, n).Stopped?
    ensures Iterate(tick, init, k) == Iterate(tick, init, n)
    decreases k - n
  {
    if n < k {
      IterateNext(tick, init, n);
      StoppedPersists(tick, init, n + 1, k);
    }
  }

  /** A run that stopped did so at a tick it reached running. */
  lemma {:induction false} FirstStop(tick: (nat, State) -> Step, init: State, p: nat)
    requires Iterate(tick, init, p + 1).Stopped?
    ensures exists t: nat :: t <= p && Iterate(tick, init, t).Running? &&
                             tick(t, Iterate(tick, init, t).state) == Iterate(tick, init, p + 1)
  {
    IterateNext(tick, init, p);
    if Iterate(tick, init, p).Stopped? {
      assert p > 0;
      var q := p - 1;
      IterateNext(tick, init, q);
      assert Iterate(tick, init, q + 1) == Iterate(tick, init, p);
      FirstStop(tick, init, q);
    }
  }

  /** Tick `t` is reached with the run going and ends with outcome `o`. */
  predicate StopsAt(tick: (nat, State) -> Step, init: State, t: nat, o: Outcome) {
    Iterate(tick, init, t).Running? && tick(t, Iterate(tick, init, t).state) == Stopped(o)
  }

  /** A run ends with `o` by tick `n` exactly when some tick before `n` is reached and ends it with `o`. */
  lemma IterateStopped(tick: (nat, State) -> Step, init: State, n: nat, o: Outcome)
    ensures Iterate(tick, init, n) == Stopped(o) <==> exists t: nat :: t < n && StopsAt(tick, init, t, o)
  {
    if Iterate(tick, init, n) == Stopped(o) {
      var p := n - 1;
      assert Iterate(tick, init, p + 1) == Iterate(tick, init, n);
      FirstStop(tick, init, p);
      var t: nat :| t <= p && Iterate(tick, init, t).Running? &&
                    tick(t, Iterate(tick, init, t).state) == Iterate(tick, init, p + 1);
      assert StopsAt(tick, init, t, o);
    }
    if exists t: nat :: t < n && StopsAt(tick, init, t, o) {
      var t: nat :| t < n && StopsAt(tick, init, t, o);
      IterateNext(tick, init, t);
      StoppedPersists(tick, init, t + 1, n);
    }
  }

  /** Tick `t` is reached with the run going and lets the run go on. */
  predicate Completed(tick: (nat, State) -> Step, init: State, t: nat) {
    Iterate(tick, init, t).Running? && tick(t, Iterate(tick, init, t).state).Running?
  }

  /** A run is still going before tick `n` exactly when every earlier tick ran to its end. */
  lemma {:induction false} IterateRunning(tick: (nat, State) -> Step, init: State, n: nat)
    ensures Iterate(tick, init, n).Running? <==> forall t: nat :: t < n ==> Completed(tick, init, t)
  {
    if n > 0 {
      var p := n - 1;
      IterateNext(tick, init, p);
      assert Iterate(tick, init, p + 1) == Iterate(tick, init, n);
      IterateRunning(tick, init, p);
      if Iterate(tick, init, n).Running? {
        assert Completed(tick, init, p);
        forall t: nat | t < n
          ensures Completed(tick, init, t)
        {
          if t < p {
          }
        }
      } else {
        assert !Completed(tick, init, p);
      }
    }
  }

  function TickOf(tasks: seq<Task>, m: nat, spawn: Spawner): (nat, State) -> Step {
    (t: nat, s: State) => Tick(tasks, m, spawn, t, s)
  }

  /** The state before tick `n` of `simulate`, or how it stopped at an earlier tick. */
  function Before(tasks: seq<Task>, m: nat, spawn: Spawner, n: nat): Step {
    Iterate(TickOf(tasks, m, spawn), Init(m), n)
  }

  /** Every state a run reaches is valid. */
  lemma {:induction false} BeforeValid(tasks: seq<Task>, m: nat, spawn: Spawner, n: nat)
    requires Before(tasks, m, spawn, n).Running?
    ensures Valid(Before(tasks, m, spawn, n).state, m)
  {
    if n > 0 {
      var p := n - 1;
      IterateNext(TickOf(tasks, m, spawn), Init(m), p);
      assert Before(tasks, m, spawn, p + 1) == Before(tasks, m, spawn, n);
      BeforeValid(tasks, m, spawn, p);
      TickValid(tasks, m, spawn, p, Before(tasks, m, spawn, p).state);
    }
  }

  /** The number of ticks of `range(t_max + 1)`. */
  function Ticks(tMax: int): nat {
    if tMax < 0 then 0 else tMax + 1
  }

  /** The outcome of `simulate(taskset, m, scheduler, t_max)`. */
  function Simulation(tasks: seq<Task>, m: nat, spawn: Spawner, tMax: int): Outcome {
    match Before(tasks, m, spawn, Ticks(tMax))
    case Stopped(o) => o
    case Running(_) => Schedulable
  }

  /** A tick reached with the run going either ends the run with its outcome or gives the next state. */
  lemma IterateOutcome(tick: (nat, State) -> Step, init: State, t: nat, n: nat, s: State)
    requires t < n && Iterate(tick, init, t) == Running(s)
    ensures tick(t, s).Stopped? ==> Iterate(tick, init, n) == tick(t, s)
    ensures tick(t, s).Running? ==> Iterate(tick, init, t + 1) == tick(t, s)
  {
    IterateNext(tick, init, t);
    if tick(t, s).Stopped? {
      StoppedPersists(tick, init, t + 1, n);
    }
  }

  /** One pass of the tick loop, on a run that has reached tick `t` still going. */
  method Advance(tasks: seq<Task>, m: nat, spawn: Spawner, t: nat, ghost tMax: int,
                 heap: seq<Job>, queue: seq<nat>, slots: array<Option<nat>>)
    returns (stop: Option<Outcome>, heap': seq<Job>, queue': seq<nat>)
    requires t <= tMax && Before(tasks, m, spawn, t) == Running(State(heap, queue, slots[..]))
    modifies slots
    ensures match stop
      case Some(o) => o == Simulation(tasks, m, spawn, tMax)
      case None => Before(tasks, m, spawn, t + 1) == Running(State(heap', queue', slots[..]))
  {
    BeforeValid(tasks, m, spawn, t);
    IterateOutcome(TickOf(tasks, m, spawn), Init(m), t, Ticks(tMax), State(heap, queue, slots[..]));
    stop, heap', queue' := RunTick(tasks, m, spawn, t, heap, queue, slots);
  }

  /** A run still going once every tick of `range(t_max + 1)` has passed is schedulable. */
  lemma RanToEnd(tasks: seq<Task>, m: nat, spawn: Spawner, tMax: int, t: nat)
    requires tMax < t <= Ticks(tMax) && Before(tasks, m, spawn, t).Running?
    ensures Simulation(tasks, m, spawn, tMax) == Schedulable
  {
    assert t == Ticks(tMax);
  }

  method Simulate(tasks: seq<Task>, m: nat, spawn: Spawner, tMax: int) returns (r: Outcome)
    ensures r == Simulation(tasks, m, spawn, tMax)
  {
    var heap: seq<Job> := [];
    var queue: seq<nat> := [];
    var slots := new Option<nat>[m](_ => None);
    assert slots[..] == Init(m).slots;
    var t := 0;
    while t <= tMax
      invariant 0 <= t <= Ticks(tMax)
      invariant Before(tasks, m, spawn, t) == Running(State(heap, queue, slots[..]))
      decreases tMax - t
    {
      var stop;
      stop, heap, queue := Advance(tasks, m, spawn, t, tMax, heap, queue, slots);
      if stop.Some? {
        return stop.value;
      }
      t := t + 1;
    }
    RanToEnd(tasks, m, spawn, tMax, t);
    return Schedulable;
  }

  // ---------------------------------------------------------------------------
  // What a run means
  // ---------------------------------------------------------------------------

  /** Tick `t` is reached with the run going, and its deadline check finds a queued job past its deadline. */
  predicate MissAt(tasks: seq<Task>, m: nat, spawn: Spawner, t: nat) {
    Before(tasks, m, spawn, t).Running? && MissObserved(tasks, spawn, t, Before(tasks, m, spawn, t).state)
  }

  /**
   * `simulate` returns 2 exactly when some tick `t <= t_max` is reached with
   * the run going and its deadline check, made before anything executes at
   * `t`, finds a queued job past its deadline.
   */
  lemma SimulationMisses(tasks: seq<Task>, m: nat, spawn: Spawner, tMax: int)
    ensures Simulation(tasks, m, spawn, tMax) == DeadlineMiss <==> exists t: nat :: t <= tMax && MissAt(tasks, m, spawn, t)
  {
    var tick := TickOf(tasks, m, spawn);
    IterateStopped(tick, Init(m), Ticks(tMax), DeadlineMiss);
    forall t: nat
      ensures StopsAt(tick, Init(m), t, DeadlineMiss) <==> MissAt(tasks, m, spawn, t)
    {
    }
  }

  /** Tick `t` of `simulate` is reached with the run going and lets it go on. */
  predicate Completes(tasks: seq<Task>, m: nat, spawn: Spawner, t: nat) {
    Completed(TickOf(tasks, m, spawn), Init(m), t)
  }

  /** `simulate` returns 0 exactly when every tick `0..t_max` runs to its end. */
  lemma SimulationSchedulable(tasks: seq<Task>, m: nat, spawn: Spawner, tMax: int)
    ensures Simulation(tasks, m, spawn, tMax) == Schedulable <==>
      forall t: nat :: t <= tMax ==> Completes(tasks, m, spawn, t)
  {
    var tick := TickOf(tasks, m, spawn);
    var n := Ticks(tMax);
    IterateRunning(tick, Init(m), n);
    IterateStopped(tick, Init(m), n, Schedulable);
    forall t: nat
      ensures !StopsAt(tick, Init(m), t, Schedulable)
    {
    }
    assert Simulation(tasks, m, spawn, tMax) == Schedulable <==> Iterate(tick, Init(m), n).Running?;
    if Simulation(tasks, m, spawn, tMax) == Schedulable {
      forall t: nat | t <= tMax
        ensures Completes(tasks, m, spawn, t)
      {
        assert t < n;
      }
    }
    if forall t: nat :: t <= tMax ==> Completes(tasks, m, spawn, t) {
      forall t: nat | t < n
        ensures Completed(tick, Init(m), t)
      {
        assert Completes(tasks, m, spawn, t);
      }
    }
  }

  /** Job `id` is unchanged, or it is one of `elected` and executed one unit. */
  predicate RanAtMostOnce(before: seq<Job>, after: seq<Job>, elected: seq<nat>, id: nat)
    requires id < |before| && id < |after|
  {
    after[id] == before[id] || (id in elected && after[id] == Schedule(before[id], 1))
  }

  /** With no job elected twice, each elected job executes at most one unit and no other job executes. */
  lemma {:induction false} AssignAllRunsOnce(heap: seq<Job>, slots: seq<Option<nat>>, elected: seq<nat>, j: nat)
    requires Unique(elected) && j <= |elected|
    ensures forall id :: 0 <= id < |heap| ==>
      RanAtMostOnce(heap, AssignAll(heap, slots, elected, j).0, elected[j..], id)
    decreases |elected| - j
  {
    if j < |elected| {
      var e := elected[j];
      var placed := if e < |heap| then Place(heap, slots, e, 0) else (heap, slots);
      var after := AssignAll(placed.0, placed.1, elected, j + 1);
      assert after == AssignAll(heap, slots, elected, j);
      AssignAllRunsOnce(placed.0, placed.1, elected, j + 1);
      assert elected[j..] == [e] + elected[j + 1..];
      assert e !in elected[j + 1..] by {
        assert elected == elected[..j + 1] + elected[j + 1..];
        assert multiset(elected)[e] == multiset(elected[..j + 1])[e] + multiset(elected[j + 1..])[e];
        assert e in elected[..j + 1];
      }
      forall id | 0 <= id < |heap|
        ensures RanAtMostOnce(heap, after.0, elected[j..], id)
      {
        assert RanAtMostOnce(placed.0, after.0, elected[j + 1..], id);
        if id == e {
          assert after.0[id] == placed.0[id];
          assert e in elected[j..];
        } else {
          assert placed.0[id] == heap[id];
          assert id in elected[j + 1..] ==> id in elected[j..];
        }
      }
    }
  }

  /**
   * One tick executes at most `m` jobs, each for at most one unit: every
   * other job is left as it was, deadlines never change and remaining
   * execution only decreases.
   */
  lemma TickRunsAtMostM(tasks: seq<Task>, m: nat, spawn: Spawner, t: int, s: State)
    requires Valid(s, m) && Tick(tasks, m, spawn, t, s).Running?
    ensures var start := Enqueue(s, Released(tasks, t, spawn)).heap;
      var after := Tick(tasks, m, spawn, t, s).state.heap;
      |after| == |start| &&
      exists elected: seq<nat> :: |elected| <= m &&
        forall id :: 0 <= id < |after| ==> RanAtMostOnce(start, after, elected, id)
  {
    var s1 := Enqueue(s, Released(tasks, t, spawn));
    EnqueueValid(s, m, Released(tasks, t, spawn));
    var freed := FreeFrom(s1.heap, s1.queue, s1.slots, 0).value;
    FreeFromValid(s1, m);
    var elected := GlobalEdfScheduler(freed.0, DeadlineOf(s1.heap), m);
    SubIds(elected, freed.0, |s1.heap|);
    AssignAllRunsOnce(s1.heap, freed.1, elected, 0);
    assert elected[0..] == elected;
    assert Tick(tasks, m, spawn, t, s).state.heap == AssignAll(s1.heap, freed.1, elected, 0).0;
  }

  /** The quirk, first half: a job already on slot 0 that is elected again also takes the empty slot 1. */
  lemma PlaceMayDuplicate()
    ensures Place([Job(5, 2)], [Some(0), None], 0, 0) == ([Job(5, 1)], [Some(0), Some(0)])
  {
    var heap: seq<Job>, slots: seq<Option<nat>> := [Job(5, 2)], [Some(0), None];
    assert !Accepts(heap, slots, 0, 0) && Accepts(heap, slots, 0, 1);
    assert FirstAccepting(heap, slots, 0, 0, 1);
    assert heap[0 := Schedule(heap[0], 1)] == [Job(5, 1)];
    assert slots[1 := Some(0)] == [Some(0), Some(0)];
  }

  /** The quirk, second half: once that job completes, the second slot's removal finds it gone. */
  lemma FreeFailsOnDuplicate()
    ensures FreeFrom([Job(5, 0)], [0], [Some(0), Some(0)], 0) == None
  {
    assert RemoveFirst([0], 0) == Some([]);
    assert RemoveFirst([], 0) == None;
    var cleared: seq<Option<nat>> := [Some(0), Some(0)][0 := None];
    assert cleared == [None, Some(0)];
  }

  // ---------------------------------------------------------------------------
  // A job is never resumed on its own slot
  // ---------------------------------------------------------------------------

  /**
   * One task with `C = 2`, `D = 2`, `T = 4` (utilisation 1/2), whose jobs are
   * due `D` after their release.
   */
  function HalfLoad(): seq<Task> {
    [Task(1, 0, 2, 2, 4, false)]
  }

  function SpawnDue(): Spawner {
    (task: Task, t: int) => Some(Job(t + task.deadline, task.wcet))
  }

  /** The state after tick 0: the job has run one unit on the only slot. */
  function AfterFirstUnit(): State {
    State([Job(2, 1)], [0], [Some(0)])
  }

  lemma HalfLoadReleased(t: int)
    ensures Released(HalfLoad(), t, SpawnDue()) == if t % 4 == 0 then [Job(t + 2, 2)] else []
  {
    assert HalfLoad()[1..] == [];
  }

  /** A tick that neither observes a miss nor fails to free runs the assignment on the freed state. */
  lemma TickRuns(tasks: seq<Task>, m: nat, spawn: Spawner, t: int, s: State, s1: State,
                 q: seq<nat>, slots: seq<Option<nat>>, placed: (seq<Job>, seq<Option<nat>>))
    requires s1 == Enqueue(s, Released(tasks, t, spawn))
    requires !SomeMissed(s1.heap, s1.queue, t)
    requires FreeFrom(s1.heap, s1.queue, s1.slots, 0) == Some((q, slots))
    requires placed == AssignAll(s1.heap, slots, GlobalEdfScheduler(q, DeadlineOf(s1.heap), m), 0)
    ensures Tick(tasks, m, spawn, t, s) == Running(State(placed.0, q, placed.1))
  {
  }

  /** With one queued job and one processor, that job is elected. */
  lemma ElectOnly(heap: seq<Job>)
    ensures GlobalEdfScheduler<nat>([0], DeadlineOf(heap), 1) == [0]
  {
    var q: seq<nat> := [0];
    var elected := GlobalEdfScheduler(q, DeadlineOf(heap), 1);
    assert elected[0] in multiset(elected);
  }

  /** Assigning a single elected job is placing it. */
  lemma AssignOnly(heap: seq<Job>, slots: seq<Option<nat>>)
    requires 0 < |heap|
    ensures AssignAll(heap, slots, [0], 0) == Place(heap, slots, 0, 0)
  {
    var placed := Place(heap, slots, 0, 0);
    assert AssignAll(heap, slots, [0], 0) == AssignAll(placed.0, placed.1, [0], 1);
  }

  /** Tick 0, step by step: the release fills the queue, nothing is freed, the job takes the empty slot. */
  lemma HalfLoadReleaseZero()
    ensures Enqueue(Init(1), Released(HalfLoad(), 0, SpawnDue())) == State([Job(2, 2)], [0], [None])
  {
    HalfLoadReleased(0);
    var none: seq<Option<nat>> := [None];
    assert Init(1) == State([], [], none);
    var ids := Fresh(0, 1);
    assert ids == [0];
    assert Enqueue(State([], [], none), [Job(2, 2)]) == State([] + [Job(2, 2)], [] + ids, none);
  }

  lemma HalfLoadFreeZero()
    ensures FreeFrom([Job(2, 2)], [0], [None], 0) == Some(([0], [None]))
  {
    assert FreeFrom([Job(2, 2)], [0], [None], 0) == FreeFrom([Job(2, 2)], [0], [None], 1);
  }

  lemma HalfLoadPlaceZero()
    ensures Place([Job(2, 2)], [None], 0, 0) == ([Job(2, 1)], [Some(0)])
  {
    var heap: seq<Job>, none: seq<Option<nat>> := [Job(2, 2)], [None];
    assert Accepts(heap, none, 0, 0);
    assert heap[0 := Schedule(heap[0], 1)] == [Job(2, 1)];
    assert none[0 := Some(0)] == [Some(0)];
  }

  /** Tick 0 releases the job and runs it for one unit. */
  lemma HalfLoadTickZero()
    ensures Tick(HalfLoad(), 1, SpawnDue(), 0, Init(1)) == Running(AfterFirstUnit())
  {
    var heap: seq<Job>, none: seq<Option<nat>> := [Job(2, 2)], [None];
    var s1 := State(heap, [0], none);
    HalfLoadReleaseZero();
    assert !DeadlineMissed(heap[0], 0);
    assert !SomeMissed(heap, [0], 0);
    HalfLoadFreeZero();
    ElectOnly(heap);
    AssignOnly(heap, none);
    HalfLoadPlaceZero();
    TickRuns(HalfLoad(), 1, SpawnDue(), 0, Init(1), s1, [0], none, ([Job(2, 1)], [Some(0)]));
  }

  /**
   * Ticks 1 and 2: the job is elected again but its own slot does not accept
   * it, and there is no other; nothing runs.
   */
  lemma HalfLoadStalls(t: nat)
    requires 1 <= t <= 2
    ensures Tick(HalfLoad(), 1, SpawnDue(), t, AfterFirstUnit()) == Running(AfterFirstUnit())
  {
    var s := AfterFirstUnit();
    HalfLoadReleased(t);
    assert t % 4 != 0;
    assert Enqueue(s, []) == s;
    assert !DeadlineMissed(s.heap[0], t);
    assert !SomeMissed(s.heap, s.queue, t);
    assert FreeFrom(s.heap, s.queue, s.slots, 0) == FreeFrom(s.heap, s.queue, s.slots, 1);
    ElectOnly(s.heap);
    AssignOnly(s.heap, s.slots);
    assert !Accepts(s.heap, s.slots, 0, 0);
    assert Place(s.heap, s.slots, 0, 0) == Place(s.heap, s.slots, 0, 1);
    TickRuns(HalfLoad(), 1, SpawnDue(), t, s, s, s.queue, s.slots, (s.heap, s.slots));
  }

  /**
   * A task set of utilisation 1/2 on one processor misses a deadline by tick
   * 3: after its first unit the job is never run again.
   */
  lemma HalfLoadMisses()
    ensures MissAt(HalfLoad(), 1, SpawnDue(), 3)
    ensures Simulation(HalfLoad(), 1, SpawnDue(), 3) == DeadlineMiss
  {
    var tick := TickOf(HalfLoad(), 1, SpawnDue());
    HalfLoadTickZero();
    IterateNext(tick, Init(1), 0);
    HalfLoadStalls(1);
    IterateNext(tick, Init(1), 1);
    HalfLoadStalls(2);
    IterateNext(tick, Init(1), 2);
    assert Before(HalfLoad(), 1, SpawnDue(), 3) == Running(AfterFirstUnit());
    HalfLoadMissAtThree();
    IterateNext(tick, Init(1), 3);
  }

  /** At tick 3 the job, due at 2, still has a unit left. */
  lemma HalfLoadMissAtThree()
    ensures MissObserved(HalfLoad(), SpawnDue(), 3, AfterFirstUnit())
  {
    var s := AfterFirstUnit();
    HalfLoadReleased(3);
    assert Enqueue(s, []) == s;
    assert DeadlineMissed(s.heap[s.queue[0]], 3);
  }
}
