/**
 * The EDF selection policies (schedulers.py; core.py repeats
 * `global_edf_scheduler` word for word).
 *
 * The policies only read a job's absolute deadline, through the `deadline`
 * key a caller passes, as Python's `key=lambda job: job.deadline` does; the
 * simulator passes jobs as identities with their deadlines looked up.
 */
module Schedulers {
  import opened TaskModel
  import opened Sorting

  /**
   * Python's `min`: scan from the front, replacing the current minimum only by
   * a strictly smaller key, so the first of several minima wins.
   */
  function EarliestIndex<J>(jobs: seq<J>, deadline: J -> int): (i: nat)
    requires |jobs| > 0
    ensures i < |jobs|
    ensures forall k :: 0 <= k < |jobs| ==> deadline(jobs[i]) <= deadline(jobs[k])
    ensures forall k :: 0 <= k < i ==> deadline(jobs[k]) > deadline(jobs[i])
    decreases |jobs|
  {
    if |jobs| == 1 then 0
    else
      var best := EarliestIndex(jobs[..|jobs| - 1], deadline);
      if deadline(jobs[|jobs| - 1]) < deadline(jobs[best]) then |jobs| - 1 else best
  }

  /** `edf_priority`: the earliest-deadline job, the first one among ties; none for an empty list. */
  function EdfPriority<J>(jobs: seq<J>, deadline: J -> int): (r: Option<J>)
    ensures r.None? <==> |jobs| == 0
    ensures r.Some? ==> r.value in jobs && forall j :: j in jobs ==> deadline(r.value) <= deadline(j)
    ensures r.Some? ==> exists i :: 0 <= i < |jobs| && jobs[i] == r.value &&
                                  forall k :: 0 <= k < i ==> deadline(jobs[k]) > deadline(jobs[i])
  {
    if |jobs| == 0 then None else Some(jobs[EarliestIndex(jobs, deadline)])
  }

  function RealKey<J>(deadline: J -> int): J -> real {
    j => deadline(j) as real
  }

  /**
   * `global_edf_scheduler`: the first `m` jobs of the queue sorted by deadline.
   * That is `min(m, |queue|)` jobs of the queue, in deadline order;
   * `ElectedFirst` adds that none of them is later than a job left out.
   */
  function GlobalEdfScheduler<J>(queue: seq<J>, deadline: J -> int, m: nat): (elected: seq<J>)
    ensures |elected| == if m < |queue| then m else |queue|
    ensures multiset(elected) <= multiset(queue)
    ensures forall i, j :: 0 <= i < j < |elected| ==> deadline(elected[i]) <= deadline(elected[j])
  {
    if |queue| == 0 then []
    else
      var sorted := SortBy(queue, RealKey(deadline), Ascending);
      var n := if m < |queue| then m else |queue|;
      SortBySorted(queue, RealKey(deadline), Ascending);
      SortedPrefixFirst(sorted, deadline, n);
      assert sorted == sorted[..n] + sorted[n..];
      sorted[..n]
  }

  /** No elected job has a later deadline than a job of the queue left out. */
  lemma ElectedFirst<J>(queue: seq<J>, deadline: J -> int, m: nat)
    ensures var elected := GlobalEdfScheduler(queue, deadline, m);
      forall e, x :: e in elected && x in queue && multiset(elected)[x] < multiset(queue)[x] ==>
                     deadline(e) <= deadline(x)
  {
    if |queue| > 0 {
      var sorted := SortBy(queue, RealKey(deadline), Ascending);
      var n := if m < |queue| then m else |queue|;
      SortBySorted(queue, RealKey(deadline), Ascending);
      SortedPrefixFirst(sorted, deadline, n);
      assert GlobalEdfScheduler(queue, deadline, m) == sorted[..n];
    }
  }

  lemma SortedPrefixFirst<J>(sorted: seq<J>, deadline: J -> int, n: nat)
    requires n <= |sorted|
    requires SortedBy(sorted, RealKey(deadline), Ascending)
    ensures forall i, j :: 0 <= i < j < n ==> deadline(sorted[i]) <= deadline(sorted[j])
    ensures forall e, x :: e in sorted[..n] && x in sorted && multiset(sorted[..n])[x] < multiset(sorted)[x] ==>
                           deadline(e) <= deadline(x)
  {
    assert sorted == sorted[..n] + sorted[n..];
    forall i, j | 0 <= i < j < n
      ensures deadline(sorted[i]) <= deadline(sorted[j])
    {
      assert RealKey(deadline)(sorted[i]) <= RealKey(deadline)(sorted[j]);
    }
    forall e, x | e in sorted[..n] && x in sorted && multiset(sorted[..n])[x] < multiset(sorted)[x]
      ensures deadline(e) <= deadline(x)
    {
      var i :| 0 <= i < n && sorted[..n][i] == e;
      assert multiset(sorted) == multiset(sorted[..n]) + multiset(sorted[n..]);
      assert x in sorted[n..];
      var j :| 0 <= j < |sorted| - n && sorted[n..][j] == x;
      assert RealKey(deadline)(sorted[i]) <= RealKey(deadline)(sorted[n + j]);
    }
  }

  // ---------------------------------------------------------------------------
  // EDF(k)
  // ---------------------------------------------------------------------------

  /** The length of Python's `s[:end]` for a list of length `n` (a negative `end` counts from the back). */
  function PrefixLength(n: nat, end: int): (len: nat)
    ensures len <= n
    ensures 0 <= end <= n ==> len == end
  {
    if end >= 0 then (if end < n then end else n)
    else if n + end > 0 then n + end
    else 0
  }

  /** The first `b` tasks get the priority boost; the others are left as they are. */
  function Boost(ts: seq<Task>, b: nat): (r: seq<Task>)
    ensures |r| == |ts|
  {
    seq(|ts|, i requires 0 <= i < |ts| => if i < b then ts[i].(boosted := true) else ts[i])
  }

  /** The task list as `edf_k_scheduler(tasks, m, k)` leaves it. */
  function EdfKOrder(ts: seq<Task>, k: int): seq<Task> {
    if ts == [] then [] else Boost(SortBy(ts, Util, Descending), PrefixLength(|ts|, k - 1))
  }

  /**
   * `edf_k_scheduler`: sorts the list in place by non-increasing utilisation
   * and boosts the tasks of `tasks[:k-1]`. The processor count the source also
   * takes is not used by it and is not a parameter here.
   */
  method EdfKScheduler(tasks: array<Task>, k: int)
    modifies tasks
    ensures tasks[..] == EdfKOrder(old(tasks[..]), k)
  {
    if tasks.Length == 0 {
      return;
    }
    var sorted := SortBy(tasks[..], Util, Descending);
    forall i | 0 <= i < tasks.Length {
      tasks[i] := sorted[i];
    }
    var b := PrefixLength(tasks.Length, k - 1);
    for i := 0 to b
      invariant tasks[..] == Boost(sorted, i)
    {
      tasks[i] := tasks[i].(boosted := true);
    }
  }

  function Unflag(t: Task): Task {
    t.(boosted := false)
  }

  /** The tasks with the boost cleared: what EDF(k) leaves unchanged. */
  function UnflagAll(ts: seq<Task>): (r: seq<Task>)
    ensures |r| == |ts|
  {
    if ts == [] then [] else [Unflag(ts[0])] + UnflagAll(ts[1..])
  }

  lemma {:induction false} UnflagAllAt(ts: seq<Task>, i: nat)
    requires i < |ts|
    ensures UnflagAll(ts)[i] == Unflag(ts[i])
  {
    if i > 0 {
      UnflagAllAt(ts[1..], i - 1);
    }
  }

  lemma UnflagAllPointwise(a: seq<Task>, b: seq<Task>)
    requires |a| == |b|
    requires forall i :: 0 <= i < |a| ==> Unflag(a[i]) == Unflag(b[i])
    ensures UnflagAll(a) == UnflagAll(b)
  {
    forall i | 0 <= i < |a|
      ensures UnflagAll(a)[i] == UnflagAll(b)[i]
    {
      UnflagAllAt(a, i);
      UnflagAllAt(b, i);
    }
  }

  lemma {:induction false} UnflagInsert(x: Task, s: seq<Task>)
    ensures UnflagAll(Insert(x, s, Util, Descending)) == Insert(Unflag(x), UnflagAll(s), Util, Descending)
    decreases |s|, 1
  {
    if s == [] || InOrder(Descending, Util(x), Util(s[0])) {
      UnflagInsertFront(x, s);
    } else {
      UnflagInsertPast(x, s);
    }
  }

  /** `x` goes in front: so does its unflagged copy. */
  lemma UnflagInsertFront(x: Task, s: seq<Task>)
    requires s == [] || InOrder(Descending, Util(x), Util(s[0]))
    ensures UnflagAll(Insert(x, s, Util, Descending)) == Insert(Unflag(x), UnflagAll(s), Util, Descending)
  {
    var r := [x] + s;
    assert r[0] == x && r[1..] == s;
    assert UnflagAll(r) == [Unflag(x)] + UnflagAll(s);
    if s != [] {
      var us := UnflagAll(s);
      assert us[0] == Unflag(s[0]);
    }
  }

  /** `x` passes `s[0]`: so does its unflagged copy. */
  lemma {:induction false} UnflagInsertPast(x: Task, s: seq<Task>)
    requires s != [] && !InOrder(Descending, Util(x), Util(s[0]))
    ensures UnflagAll(Insert(x, s, Util, Descending)) == Insert(Unflag(x), UnflagAll(s), Util, Descending)
    decreases |s|, 0
  {
    var y, t := s[0], s[1..];
    assert s == [y] + t;
    var rest := Insert(x, t, Util, Descending);
    assert Insert(x, s, Util, Descending) == [y] + rest;
    UnflagAllCons(y, rest);
    UnflagInsert(x, t);
    UnflagAllCons(y, t);
    InsertPast(Unflag(x), Unflag(y), UnflagAll(t));
  }

  lemma UnflagAllCons(y: Task, t: seq<Task>)
    ensures UnflagAll([y] + t) == [Unflag(y)] + UnflagAll(t)
  {
    assert ([y] + t)[1..] == t;
  }

  /** An element that may not precede `y` is inserted after it. */
  lemma InsertPast(x: Task, y: Task, t: seq<Task>)
    requires !InOrder(Descending, Util(x), Util(y))
    ensures Insert(x, [y] + t, Util, Descending) == [y] + Insert(x, t, Util, Descending)
  {
    assert ([y] + t)[1..] == t;
  }

  lemma {:induction false} UnflagSort(ts: seq<Task>)
    ensures UnflagAll(SortBy(ts, Util, Descending)) == SortBy(UnflagAll(ts), Util, Descending)
  {
    if ts != [] {
      UnflagSort(ts[1..]);
      UnflagInsert(ts[0], SortBy(ts[1..], Util, Descending));
    }
  }

  /** `Boost` changes nothing but the flag. */
  lemma BoostKeepsTasks(ts: seq<Task>, b: nat)
    ensures UnflagAll(Boost(ts, b)) == UnflagAll(ts)
  {
    UnflagAllPointwise(Boost(ts, b), ts);
  }

  lemma BoostNone(ts: seq<Task>)
    ensures Boost(ts, 0) == ts
  {
    assert forall i :: 0 <= i < |ts| ==> Boost(ts, 0)[i] == ts[i];
  }

  /**
   * What `edf_k_scheduler` does to the task list: by non-increasing
   * utilisation, the first `k-1` (Python's `tasks[:k-1]`) are boosted and no
   * other task's priority changes, so `k = 1` boosts nothing; an empty list
   * stays empty. `EdfKOrderKeepsTasks` adds that the tasks are the same.
   */
  lemma EdfKOrderSpec(ts: seq<Task>, k: int)
    ensures |EdfKOrder(ts, k)| == |ts|
    ensures forall i, j :: 0 <= i < j < |ts| ==> Util(EdfKOrder(ts, k)[i]) >= Util(EdfKOrder(ts, k)[j])
    ensures forall i :: 0 <= i < |ts| ==>
      (EdfKOrder(ts, k)[i].boosted <==> i < PrefixLength(|ts|, k - 1) || SortBy(ts, Util, Descending)[i].boosted)
    ensures 1 <= k <= |ts| + 1 ==> PrefixLength(|ts|, k - 1) == k - 1
    ensures k == 1 ==> EdfKOrder(ts, k) == SortBy(ts, Util, Descending)
  {
    if ts != [] {
      var sorted := SortBy(ts, Util, Descending);
      var r := Boost(sorted, PrefixLength(|ts|, k - 1));
      assert EdfKOrder(ts, k) == r;
      SortBySorted(ts, Util, Descending);
      forall i, j | 0 <= i < j < |r|
        ensures Util(r[i]) >= Util(r[j])
      {
        assert InOrder(Descending, Util(sorted[i]), Util(sorted[j]));
      }
      if k == 1 {
        BoostNone(sorted);
      }
    }
  }

  /** Apart from the boost, `edf_k_scheduler` leaves a permutation of its input. */
  lemma EdfKOrderKeepsTasks(ts: seq<Task>, k: int)
    ensures multiset(UnflagAll(EdfKOrder(ts, k))) == multiset(UnflagAll(ts))
  {
    if ts != [] {
      var sorted := SortBy(ts, Util, Descending);
      var r := Boost(sorted, PrefixLength(|ts|, k - 1));
      assert EdfKOrder(ts, k) == r;
      UnflagSort(ts);
      BoostKeepsTasks(sorted, PrefixLength(|ts|, k - 1));
      assert multiset(SortBy(UnflagAll(ts), Util, Descending)) == multiset(UnflagAll(ts));
    }
  }
}
