/**
 * `TaskSet.release_jobs` (models/taskset.py): the jobs released at time `t`.
 *
 * A task is due when `t` is a multiple of its period; its offset plays no
 * part. Creating the job is the task's own `spawn_job`, which is not part of
 * this model: it is a parameter here, and may decline to create a job.
 */
module TaskSet {
  import opened TaskModel

  /** `task.spawn_job(t)`. */
  type Spawner = (Task, int) -> Option<Job>

  /** Python's `t % T == 0`; for a positive `T` Python's `%` and Dafny's agree. */
  predicate Due(task: Task, t: int) {
    t % task.period == 0
  }

  /** What one task adds to the release list at `t`: nothing, or the job it spawns. */
  function Contribution(task: Task, t: int, spawn: Spawner): seq<Job> {
    if Due(task, t) then
      match spawn(task, t)
      case Some(j) => [j]
      case None => []
    else []
  }

  /** The contributions of the tasks, in task order. */
  function Released(tasks: seq<Task>, t: int, spawn: Spawner): seq<Job> {
    if tasks == [] then [] else Contribution(tasks[0], t, spawn) + Released(tasks[1..], t, spawn)
  }

  method ReleaseJobs(tasks: seq<Task>, t: int, spawn: Spawner) returns (jobs: seq<Job>)
    ensures jobs == Released(tasks, t, spawn)
  {
    jobs := [];
    var i := 0;
    while i < |tasks|
      invariant 0 <= i <= |tasks|
      invariant jobs == Released(tasks[..i], t, spawn)
    {
      var task := tasks[i];
      if t % task.period == 0 {
        var job := spawn(task, t);
        if job.Some? {
          jobs := jobs + [job.value];
        }
      }
      ReleasedConcat(tasks[..i], [task], t, spawn);
      assert tasks[..i] + [task] == tasks[..i + 1];
      i := i + 1;
    }
    assert tasks[..i] == tasks;
  }

  /** Releasing for a concatenation releases for each part, in order: release order is task order. */
  lemma {:induction false} ReleasedConcat(a: seq<Task>, b: seq<Task>, t: int, spawn: Spawner)
    ensures Released(a + b, t, spawn) == Released(a, t, spawn) + Released(b, t, spawn)
  {
    if a == [] {
      assert a + b == b;
    } else {
      var ab := a + b;
      assert ab[0] == a[0];
      assert ab[1..] == a[1..] + b;
      ReleasedConcat(a[1..], b, t, spawn);
      var x, y, z := Contribution(a[0], t, spawn), Released(a[1..], t, spawn), Released(b, t, spawn);
      assert Released(ab, t, spawn) == x + (y + z);
      assert x + (y + z) == (x + y) + z;
    }
  }

  /** Each task contributes at most one job, so at most `|tasks|` jobs are released. */
  lemma {:induction false} ReleasedAtMostOnePerTask(tasks: seq<Task>, t: int, spawn: Spawner)
    ensures |Released(tasks, t, spawn)| <= |tasks|
  {
    if tasks != [] {
      ReleasedAtMostOnePerTask(tasks[1..], t, spawn);
    }
  }

  /** The `i`-th task's job is released exactly when it is due and `spawn` creates one. */
  lemma {:induction false} ReleasedIncludes(tasks: seq<Task>, t: int, spawn: Spawner, i: nat)
    requires i < |tasks|
    ensures Released(tasks, t, spawn)
         == Released(tasks[..i], t, spawn) + Contribution(tasks[i], t, spawn) + Released(tasks[i + 1..], t, spawn)
    ensures |Contribution(tasks[i], t, spawn)| == (if Due(tasks[i], t) && spawn(tasks[i], t).Some? then 1 else 0)
  {
    var pre, x, post := tasks[..i], tasks[i], tasks[i + 1..];
    assert tasks == pre + ([x] + post);
    ReleasedConcat(pre, [x] + post, t, spawn);
    ReleasedConcat([x], post, t, spawn);
    assert [x][1..] == [];
    var a, b, c := Released(pre, t, spawn), Contribution(x, t, spawn), Released(post, t, spawn);
    assert Released([x], t, spawn) == b;
    assert Released(tasks, t, spawn) == a + (b + c);
    assert a + (b + c) == a + b + c;
  }

  /** At `t = 0` every task is due, so every job `spawn` creates at 0 is released. */
  lemma {:induction false} AllReleasedAtZero(tasks: seq<Task>, spawn: Spawner)
    requires forall task :: task in tasks ==> spawn(task, 0).Some?
    ensures |Released(tasks, 0, spawn)| == |tasks|
  {
    if tasks != [] {
      assert tasks[0] in tasks;
      assert forall task :: task in tasks[1..] ==> task in tasks;
      AllReleasedAtZero(tasks[1..], spawn);
    }
  }

  /** Whatever the offset, in the first two periods a task is due at exactly 0 and T. */
  lemma DueTwiceInTwoPeriods(task: Task, t: int)
    requires 0 <= t < 2 * task.period
    ensures Due(task, t) <==> t == 0 || t == task.period
  {
    var p := task.period;
    if t < p {
      ModOfRemainder(t, p, 0, t);
    } else {
      ModOfRemainder(t, p, 1, t - p);
    }
  }

  /** `t % p` is the `r` of any `t == q * p + r` with `0 <= r < p`. */
  lemma ModOfRemainder(t: int, p: int, q: int, r: int)
    requires p > 0 && 0 <= r < p && t == q * p + r
    ensures t % p == r
  {
    var q' := t / p;
    var r' := t % p;
    assert t == q' * p + r';
    assert (q - q') * p == r' - r;
    ProductBound(q - q', p);
  }

  lemma ProductBound(d: int, p: int)
    requires p > 0
    ensures d >= 1 ==> d * p >= p
    ensures d <= -1 ==> d * p <= -p
  {
    if d >= 1 {
      assert (d - 1) * p >= 0;
    } else if d <= -1 {
      assert (-d - 1) * p >= 0;
    }
  }
}
