/**
 * Tasks and jobs.
 *
 * The task and job classes themselves (models/task.py, models/job.py) are not
 * part of this model; what the scheduler relies on is given here as a minimal
 * contract: a task is `(id, offset, C, D, T)` with `C, D, T > 0` and
 * utilisation `C / T` computed exactly; a job carries an absolute deadline and
 * a remaining execution time, executing it for `units` subtracts `units`, it is
 * complete when nothing remains, and it has missed its deadline at time `t`
 * when that deadline lies before `t` and it is not complete.
 */
module TaskModel {

  datatype Option<T> = None | Some(value: T)

  type Positive = x: int | x > 0 witness 1

  /**
   * `boosted` stands for the EDF(k) priority boost, which the source writes as
   * a relative deadline of minus infinity (schedulers.py:48).
   */
  datatype Task = Task(id: int, offset: nat, wcet: Positive, deadline: Positive, period: Positive, boosted: bool)

  /** `C / T`, exactly. */
  function Util(t: Task): (u: real)
    ensures 0.0 < u
  {
    t.wcet as real / t.period as real
  }

  datatype Job = Job(deadline: int, remaining: int)

  predicate IsComplete(j: Job) {
    j.remaining == 0
  }

  predicate DeadlineMissed(j: Job, t: int) {
    j.deadline < t && !IsComplete(j)
  }

  /** `job.schedule(units)`: the job executes `units` time units. */
  function Schedule(j: Job, units: int): Job {
    j.(remaining := j.remaining - units)
  }
}
