/**
 * The bin-packing partitioner (partitioner.py).
 *
 * Tasks, as `[utilisation, task number]` pairs sorted by utilisation, are
 * placed one at a time on `nb_cores` cores so that no core's load exceeds 1.
 * A run is described by the sequence `assign` of cores that took the first
 * `|assign|` items; `Run` says that every one of those choices followed the
 * heuristic's rule, given the loads left by the earlier choices.
 */
module Partitioner {
  import opened TaskModel
  import opened Sorting

  /** `'ff'`, `'nf'`, `'bf'`, `'wf'`. */
  datatype Heuristic = FirstFit | NextFit | BestFit | WorstFit

  /** `'du'`, `'iu'`, and any other tag, which leaves the order as given. */
  datatype SortTag = DecreasingUtil | IncreasingUtil | Unsorted

  /** `[task utilisation, task number]`. */
  datatype Item = Item(util: real, id: int)

  function ItemUtil(it: Item): real {
    it.util
  }

  function Items(tasks: seq<Task>): (items: seq<Item>)
    ensures |items| == |tasks|
  {
    seq(|tasks|, i requires 0 <= i < |tasks| => Item(Util(tasks[i]), tasks[i].id))
  }

  function SortItems(items: seq<Item>, tag: SortTag): seq<Item> {
    match tag
    case DecreasingUtil => SortBy(items, ItemUtil, Descending)
    case IncreasingUtil => SortBy(items, ItemUtil, Ascending)
    case Unsorted => items
  }

  function Ids(items: seq<Item>): seq<int> {
    seq(|items|, i requires 0 <= i < |items| => items[i].id)
  }

  // ---------------------------------------------------------------------------
  // The state a run builds: `cores_utilisation` and `cores`
  // ---------------------------------------------------------------------------

  /** `cores_utilisation` after `items[j]` went to core `assign[j]` for every `j < |assign|`. */
  function Loads(items: seq<Item>, assign: seq<nat>, m: nat): (loads: seq<real>)
    requires |assign| <= |items|
    ensures |loads| == m
    decreases |assign|
  {
    if assign == [] then seq(m, _ => 0.0)
    else
      var n := |assign| - 1;
      var prev := Loads(items, assign[..n], m);
      if assign[n] < m then prev[assign[n] := prev[assign[n]] + items[n].util] else prev
  }

  /** `cores` after the same placements: each core's list gets the task number appended. */
  function Cores(items: seq<Item>, assign: seq<nat>, m: nat): (cores: seq<seq<int>>)
    requires |assign| <= |items|
    ensures |cores| == m
    decreases |assign|
  {
    if assign == [] then seq(m, _ => [])
    else
      var n := |assign| - 1;
      var prev := Cores(items, assign[..n], m);
      if assign[n] < m then prev[assign[n] := prev[assign[n]] + [items[n].id]] else prev
  }

  /** The task numbers of the placed items that went to core `c`, in item order. */
  function IdsOn(items: seq<Item>, assign: seq<nat>, c: nat): seq<int>
    requires |assign| <= |items|
    decreases |assign|
  {
    if assign == [] then []
    else
      var n := |assign| - 1;
      IdsOn(items, assign[..n], c) + (if assign[n] == c then [items[n].id] else [])
  }

  function Flatten(cores: seq<seq<int>>): seq<int> {
    if cores == [] then [] else cores[0] + Flatten(cores[1..])
  }

  // ---------------------------------------------------------------------------
  // The heuristics' rules
  // ---------------------------------------------------------------------------

  /** Where the scan for the next item starts: core 0, or for next-fit the core that took the previous item. */
  function Start(h: Heuristic, assign: seq<nat>): nat {
    if h == NextFit && |assign| > 0 then assign[|assign| - 1] else 0
  }

  /** `c` is the lowest core from `start` on where an item of utilisation `u` fits. */
  ghost predicate FirstFitFrom(loads: seq<real>, u: real, start: nat, c: nat) {
    && start <= c < |loads|
    && loads[c] + u <= 1.0
    && forall j :: start <= j < c ==> loads[j] + u > 1.0
  }

  ghost predicate NoneFitsFrom(loads: seq<real>, u: real, start: nat) {
    forall j :: start <= j < |loads| ==> loads[j] + u > 1.0
  }

  /** Best-fit prefers the greater resulting load, worst-fit the smaller; both compare strictly. */
  predicate Prefers(h: Heuristic, a: real, b: real) {
    if h == BestFit then a > b else a < b
  }

  /**
   * Among the cores below `i` where `u` fits, `c` is the one the heuristic
   * prefers, and the lowest such core when several tie.
   */
  ghost predicate PreferredUpTo(h: Heuristic, loads: seq<real>, u: real, i: nat, c: nat) {
    && c < i <= |loads|
    && loads[c] + u <= 1.0
    && (forall j :: 0 <= j < i && loads[j] + u <= 1.0 ==> !Prefers(h, loads[j], loads[c]))
    && (forall j :: 0 <= j < c && loads[j] + u <= 1.0 ==> Prefers(h, loads[c], loads[j]))
  }

  /** The rule of heuristic `h` picks core `c` for an item of utilisation `u`. */
  ghost predicate Chosen(h: Heuristic, loads: seq<real>, start: nat, u: real, c: nat) {
    match h
    case FirstFit => FirstFitFrom(loads, u, start, c)
    case NextFit => FirstFitFrom(loads, u, start, c)
    case BestFit => PreferredUpTo(h, loads, u, |loads|, c)
    case WorstFit => PreferredUpTo(h, loads, u, |loads|, c)
  }

  /** The rule of heuristic `h` finds no core for an item of utilisation `u`. */
  ghost predicate Stuck(h: Heuristic, loads: seq<real>, start: nat, u: real) {
    match h
    case FirstFit => NoneFitsFrom(loads, u, start)
    case NextFit => NoneFitsFrom(loads, u, start)
    case BestFit => NoneFitsFrom(loads, u, 0)
    case WorstFit => NoneFitsFrom(loads, u, 0)
  }

  /** Every placement so far followed the rule. */
  ghost predicate Run(h: Heuristic, items: seq<Item>, m: nat, assign: seq<nat>)
    decreases |assign|
  {
    && |assign| <= |items|
    && (assign != [] ==>
          var n := |assign| - 1;
          && Run(h, items, m, assign[..n])
          && Chosen(h, Loads(items, assign[..n], m), Start(h, assign[..n]), items[n].util, assign[n]))
  }

  /**
   * What the partitioner returns: the cores built by a run that either placed
   * every item (`ok`) or stopped at the first item the rule found no core for.
   */
  ghost predicate Packing(h: Heuristic, items: seq<Item>, m: nat, assign: seq<nat>, cores: seq<seq<int>>, ok: bool) {
    && Run(h, items, m, assign)
    && (ok <==> |assign| == |items|)
    && (!ok ==> Stuck(h, Loads(items, assign, m), Start(h, assign), items[|assign|].util))
    && cores == Cores(items, assign, m)
  }

  lemma Extend(h: Heuristic, items: seq<Item>, m: nat, assign: seq<nat>, c: nat)
    requires |assign| < |items| && c < m
    ensures (assign + [c])[..|assign|] == assign
    ensures Loads(items, assign + [c], m) == Loads(items, assign, m)[c := Loads(items, assign, m)[c] + items[|assign|].util]
    ensures Cores(items, assign + [c], m) == Cores(items, assign, m)[c := Cores(items, assign, m)[c] + [items[|assign|].id]]
    ensures Start(h, assign + [c]) == if h == NextFit then c else 0
    ensures Run(h, items, m, assign + [c]) <==>
              Run(h, items, m, assign) && Chosen(h, Loads(items, assign, m), Start(h, assign), items[|assign|].util, c)
  {
    assert (assign + [c])[..|assign|] == assign;
  }

  // ---------------------------------------------------------------------------
  // The heuristics
  // ---------------------------------------------------------------------------

  /** The inner loop of `first_next_fit`: the first core from `start` on where `u` fits, or `|loads|` if none. */
  method FirstFitting(loads: seq<real>, u: real, start: nat) returns (i: nat)
    requires start <= |loads|
    ensures start <= i <= |loads|
    ensures i < |loads| ==> FirstFitFrom(loads, u, start, i)
    ensures i == |loads| ==> NoneFitsFrom(loads, u, start)
  {
    i := start;
    while i < |loads| && loads[i] + u > 1.0
      invariant start <= i <= |loads|
      invariant forall j :: start <= j < i ==> loads[j] + u > 1.0
    {
      i := i + 1;
    }
  }

  /** The inner loop of `best_worst_fit`: the core the heuristic prefers for `u`, or none where `u` fits nowhere. */
  method PreferredCore(h: Heuristic, loads: seq<real>, u: real) returns (best: Option<nat>)
    requires h == BestFit || h == WorstFit
    ensures best.None? ==> NoneFitsFrom(loads, u, 0)
    ensures best.Some? ==> PreferredUpTo(h, loads, u, |loads|, best.value)
  {
    best := None;
    for i := 0 to |loads|
      invariant best.None? ==> forall j :: 0 <= j < i ==> loads[j] + u > 1.0
      invariant best.Some? ==> PreferredUpTo(h, loads, u, i, best.value)
    {
      var load := loads[i] + u;
      if load <= 1.0 {
        if h == BestFit && (best.None? || load > loads[best.value] + u) {
          best := Some(i);
        } else if h == WorstFit && (best.None? || load < loads[best.value] + u) {
          best := Some(i);
        }
      }
    }
  }

  /** `first_next_fit`: first-fit, or next-fit when `h` is `NextFit`. */
  method FirstNextFit(items: seq<Item>, h: Heuristic, m: nat) returns (cores: seq<seq<int>>, ok: bool, ghost assign: seq<nat>)
    requires h == FirstFit || h == NextFit
    ensures Packing(h, items, m, assign, cores, ok)
    ensures |cores| == m
    ensures ok ==> multiset(Flatten(cores)) == multiset(Ids(items))
  {
    cores := seq(m, _ => []);
    var loads: seq<real> := seq(m, _ => 0.0);
    var next := 0;
    assign := [];
    for n := 0 to |items|
      invariant |assign| == n
      invariant Run(h, items, m, assign)
      invariant loads == Loads(items, assign, m) && cores == Cores(items, assign, m)
      invariant next == Start(h, assign) && next <= m
    {
      var u := items[n].util;
      var i := FirstFitting(loads, u, next);
      if i == m {
        ok := false;
        return;
      }
      Extend(h, items, m, assign, i);
      loads := loads[i := loads[i] + u];
      cores := cores[i := cores[i] + [items[n].id]];
      if h == NextFit {
        next := i;
      }
      assign := assign + [i];
    }
    ok := true;
    AllPlaced(h, items, m, assign);
  }

  /** `best_worst_fit`: best-fit, or worst-fit when `h` is `WorstFit`. */
  method BestWorstFit(items: seq<Item>, h: Heuristic, m: nat) returns (cores: seq<seq<int>>, ok: bool, ghost assign: seq<nat>)
    requires h == BestFit || h == WorstFit
    ensures Packing(h, items, m, assign, cores, ok)
    ensures |cores| == m
    ensures ok ==> multiset(Flatten(cores)) == multiset(Ids(items))
  {
    cores := seq(m, _ => []);
    var loads: seq<real> := seq(m, _ => 0.0);
    assign := [];
    for n := 0 to |items|
      invariant |assign| == n
      invariant Run(h, items, m, assign)
      invariant loads == Loads(items, assign, m) && cores == Cores(items, assign, m)
    {
      var u := items[n].util;
      var best := PreferredCore(h, loads, u);
      if best.None? {
        ok := false;
        return;
      }
      var c := best.value;
      Extend(h, items, m, assign, c);
      loads := loads[c := loads[c] + u];
      cores := cores[c := cores[c] + [items[n].id]];
      assign := assign + [c];
    }
    ok := true;
    AllPlaced(h, items, m, assign);
  }

  /** `partition`: build the pairs, sort them as `tag` says, run the heuristic. */
  method Partition(tasks: seq<Task>, tag: SortTag, h: Heuristic, m: nat) returns (cores: seq<seq<int>>, ok: bool, ghost assign: seq<nat>)
    ensures Packing(h, SortItems(Items(tasks), tag), m, assign, cores, ok)
    ensures |cores| == m
    ensures ok ==> multiset(Flatten(cores)) == multiset(Ids(Items(tasks)))
    ensures forall c, k :: 0 <= c < m && 0 <= k < |cores[c]| ==> cores[c][k] in Ids(Items(tasks))
  {
    var items := SortItems(Items(tasks), tag);
    SortItemsIds(Items(tasks), tag);
    match h {
      case FirstFit => cores, ok, assign := FirstNextFit(items, h, m);
      case NextFit => cores, ok, assign := FirstNextFit(items, h, m);
      case WorstFit => cores, ok, assign := BestWorstFit(items, h, m);
      case BestFit => cores, ok, assign := BestWorstFit(items, h, m);
    }
    CoresFromItems(items, assign, m);
    assert forall v :: v in Ids(items) ==> v in multiset(Ids(Items(tasks)));
  }

  // ---------------------------------------------------------------------------
  // Properties of runs
  // ---------------------------------------------------------------------------

  lemma {:induction false} RunPrefix(h: Heuristic, items: seq<Item>, m: nat, assign: seq<nat>, k: nat)
    requires Run(h, items, m, assign) && k <= |assign|
    ensures Run(h, items, m, assign[..k])
    decreases |assign| - k
  {
    if k < |assign| {
      var n := |assign| - 1;
      RunPrefix(h, items, m, assign[..n], k);
      assert assign[..n][..k] == assign[..k];
    } else {
      assert assign[..k] == assign;
    }
  }

  /** The `j`-th placement followed the heuristic's rule, given the loads the earlier placements left. */
  lemma RunChoice(h: Heuristic, items: seq<Item>, m: nat, assign: seq<nat>, j: nat)
    requires Run(h, items, m, assign) && j < |assign|
    ensures assign[j] < m
    ensures Chosen(h, Loads(items, assign[..j], m), Start(h, assign[..j]), items[j].util, assign[j])
  {
    RunPrefix(h, items, m, assign, j + 1);
    assert assign[..j + 1][..j] == assign[..j];
  }

  /** After every placement, no core is loaded beyond 1. */
  lemma {:induction false} RunRespectsCapacity(h: Heuristic, items: seq<Item>, m: nat, assign: seq<nat>)
    requires Run(h, items, m, assign)
    ensures forall c :: 0 <= c < m ==> Loads(items, assign, m)[c] <= 1.0
  {
    if assign != [] {
      var n := |assign| - 1;
      RunRespectsCapacity(h, items, m, assign[..n]);
    }
  }

  /** Next-fit never goes back: the cores it uses are non-decreasing in item order. */
  lemma {:induction false} NextFitNeverGoesBack(items: seq<Item>, m: nat, assign: seq<nat>)
    requires Run(NextFit, items, m, assign)
    ensures forall i, j :: 0 <= i < j < |assign| ==> assign[i] <= assign[j]
  {
    if assign != [] {
      var n := |assign| - 1;
      NextFitNeverGoesBack(items, m, assign[..n]);
      if n > 0 {
        RunChoice(NextFit, items, m, assign, n);
        assert assign[n - 1] <= assign[n];
      }
    }
  }

  /** Each core's list holds the task numbers of the items it took, in the sorted input order. */
  lemma {:induction false} CoresKeepItemOrder(items: seq<Item>, assign: seq<nat>, m: nat)
    requires |assign| <= |items|
    ensures forall c :: 0 <= c < m ==> Cores(items, assign, m)[c] == IdsOn(items, assign, c)
  {
    if assign != [] {
      CoresKeepItemOrder(items, assign[..|assign| - 1], m);
    }
  }

  lemma {:induction false} FlattenAppend(cores: seq<seq<int>>, c: nat, x: int)
    requires c < |cores|
    ensures multiset(Flatten(cores[c := cores[c] + [x]])) == multiset(Flatten(cores)) + multiset{x}
  {
    var updated := cores[c := cores[c] + [x]];
    var head, rest := cores[0], Flatten(cores[1..]);
    assert Flatten(cores) == head + rest;
    assert multiset(Flatten(cores)) == multiset(head) + multiset(rest);
    if c == 0 {
      assert updated[1..] == cores[1..];
      assert Flatten(updated) == (head + [x]) + rest;
      assert multiset(Flatten(updated)) == multiset(head) + multiset{x} + multiset(rest);
    } else {
      var tail := cores[1..];
      FlattenAppend(tail, c - 1, x);
      assert updated[1..] == tail[c - 1 := tail[c - 1] + [x]];
      var rest' := Flatten(updated[1..]);
      assert Flatten(updated) == head + rest';
      assert multiset(Flatten(updated)) == multiset(head) + multiset(rest');
    }
  }

  /** Every placed task number is in the cores exactly as often as among the placed items: with distinct numbers, once. */
  lemma EachPlacedTaskOnce(h: Heuristic, items: seq<Item>, m: nat, assign: seq<nat>)
    requires Run(h, items, m, assign)
    ensures multiset(Flatten(Cores(items, assign, m))) == multiset(Ids(items[..|assign|]))
  {
    RunInRange(h, items, m, assign);
    PlacedOnce(items, m, assign);
  }

  /** Every core a run chose is one of the `m` cores. */
  lemma {:induction false} RunInRange(h: Heuristic, items: seq<Item>, m: nat, assign: seq<nat>)
    requires Run(h, items, m, assign)
    ensures forall j :: 0 <= j < |assign| ==> assign[j] < m
  {
    forall j | 0 <= j < |assign|
      ensures assign[j] < m
    {
      RunChoice(h, items, m, assign, j);
    }
  }

  lemma {:induction false} PlacedOnce(items: seq<Item>, m: nat, assign: seq<nat>)
    requires |assign| <= |items| && forall j :: 0 <= j < |assign| ==> assign[j] < m
    ensures multiset(Flatten(Cores(items, assign, m))) == multiset(Ids(items[..|assign|]))
  {
    if assign == [] {
      EmptyCores(m);
      assert Ids(items[..0]) == [];
    } else {
      var n := |assign| - 1;
      var prev := assign[..n];
      PlacedOnce(items, m, prev);
      var before := Cores(items, prev, m);
      var c, x := assign[n], items[n].id;
      FlattenAppend(before, c, x);
      IdsSnoc(items, n);
    }
  }

  /** The task numbers of one more item. */
  lemma IdsSnoc(items: seq<Item>, n: nat)
    requires n < |items|
    ensures Ids(items[..n + 1]) == Ids(items[..n]) + [items[n].id]
  {
  }

  /** A run that placed every item put every task number in the cores, as often as it occurs among the items. */
  lemma AllPlaced(h: Heuristic, items: seq<Item>, m: nat, assign: seq<nat>)
    requires Run(h, items, m, assign) && |assign| == |items|
    ensures multiset(Flatten(Cores(items, assign, m))) == multiset(Ids(items))
  {
    EachPlacedTaskOnce(h, items, m, assign);
    assert items[..|assign|] == items;
  }

  /** Every number in a core is the number of some item. */
  lemma {:induction false} CoresFromItems(items: seq<Item>, assign: seq<nat>, m: nat)
    requires |assign| <= |items|
    ensures forall c, k :: 0 <= c < m && 0 <= k < |Cores(items, assign, m)[c]| ==> Cores(items, assign, m)[c][k] in Ids(items)
  {
    if assign != [] {
      var n := |assign| - 1;
      CoresFromItems(items, assign[..n], m);
      assert Ids(items)[n] == items[n].id;
    }
  }

  lemma IdsCons(x: Item, s: seq<Item>)
    ensures Ids([x] + s) == [x.id] + Ids(s)
  {
  }

  lemma IdsHead(s: seq<Item>)
    requires s != []
    ensures multiset(Ids(s)) == multiset{s[0].id} + multiset(Ids(s[1..]))
  {
    assert Ids(s) == [s[0].id] + Ids(s[1..]);
  }

  /** Inserting an item adds its number to the numbers. */
  lemma {:induction false} IdsInsert(x: Item, s: seq<Item>, dir: Direction)
    ensures multiset(Ids(Insert(x, s, ItemUtil, dir))) == multiset(Ids(s)) + multiset{x.id}
  {
    if s == [] || InOrder(dir, ItemUtil(x), ItemUtil(s[0])) {
      IdsCons(x, s);
    } else {
      var rest := Insert(x, s[1..], ItemUtil, dir);
      IdsInsert(x, s[1..], dir);
      IdsCons(s[0], rest);
      IdsHead(s);
    }
  }

  /** Sorting the pairs keeps their task numbers, each as often as before. */
  lemma {:induction false} SortItemsIds(items: seq<Item>, tag: SortTag)
    ensures multiset(Ids(SortItems(items, tag))) == multiset(Ids(items))
  {
    match tag
    case DecreasingUtil => IdsSortBy(items, Descending);
    case IncreasingUtil => IdsSortBy(items, Ascending);
    case Unsorted =>
  }

  lemma {:induction false} IdsSortBy(items: seq<Item>, dir: Direction)
    ensures multiset(Ids(SortBy(items, ItemUtil, dir))) == multiset(Ids(items))
  {
    if items != [] {
      var rest := SortBy(items[1..], ItemUtil, dir);
      assert SortBy(items, ItemUtil, dir) == Insert(items[0], rest, ItemUtil, dir);
      IdsSortBy(items[1..], dir);
      IdsInsert(items[0], rest, dir);
      IdsHead(items);
    }
  }

  lemma {:induction false} EmptyCores(m: nat)
    ensures Flatten(seq(m, _ => [])) == []
  {
    if m > 0 {
      EmptyCores(m - 1);
      var none: seq<seq<int>> := seq(m, _ => []);
      assert none[1..] == seq(m - 1, _ => []);
    }
  }

  lemma ChosenUnique(h: Heuristic, loads: seq<real>, start: nat, u: real, c1: nat, c2: nat)
    requires Chosen(h, loads, start, u, c1) && Chosen(h, loads, start, u, c2)
    ensures c1 == c2
  {
  }

  /**
   * The partitioner's result is determined by its input: two packings of the
   * same items with the same heuristic and core count are the same packing.
   */
  lemma PackingDeterministic(h: Heuristic, items: seq<Item>, m: nat,
                             a1: seq<nat>, cores1: seq<seq<int>>, ok1: bool,
                             a2: seq<nat>, cores2: seq<seq<int>>, ok2: bool)
    requires Packing(h, items, m, a1, cores1, ok1)
    requires Packing(h, items, m, a2, cores2, ok2)
    ensures a1 == a2 && cores1 == cores2 && ok1 == ok2
  {
    var k := if |a1| < |a2| then |a1| else |a2|;
    SamePrefix(h, items, m, a1, a2, k);
    if |a1| < |a2| {
      RunChoice(h, items, m, a2, k);
      assert a2[..k] == a1;
      StuckExcludesChosen(h, Loads(items, a1, m), Start(h, a1), items[k].util, a2[k]);
    } else if |a2| < |a1| {
      RunChoice(h, items, m, a1, k);
      assert a1[..k] == a2;
      StuckExcludesChosen(h, Loads(items, a2, m), Start(h, a2), items[k].util, a1[k]);
    } else {
      assert a1 == a1[..k] && a2 == a2[..k];
    }
  }

  lemma StuckExcludesChosen(h: Heuristic, loads: seq<real>, start: nat, u: real, c: nat)
    requires Chosen(h, loads, start, u, c)
    ensures !Stuck(h, loads, start, u)
  {
  }

  lemma {:induction false} SamePrefix(h: Heuristic, items: seq<Item>, m: nat, a1: seq<nat>, a2: seq<nat>, k: nat)
    requires Run(h, items, m, a1) && Run(h, items, m, a2)
    requires k <= |a1| && k <= |a2|
    ensures a1[..k] == a2[..k]
  {
    if k > 0 {
      SamePrefix(h, items, m, a1, a2, k - 1);
      RunChoice(h, items, m, a1, k - 1);
      RunChoice(h, items, m, a2, k - 1);
      ChosenUnique(h, Loads(items, a1[..k - 1], m), Start(h, a1[..k - 1]), items[k - 1].util, a1[k - 1], a2[k - 1]);
      assert a1[..k] == a1[..k - 1] + [a1[k - 1]];
      assert a2[..k] == a2[..k - 1] + [a2[k - 1]];
    }
  }

  /**
   * The order the partitioner works in: `'du'` non-increasing and `'iu'`
   * non-decreasing utilisation, a permutation of the pairs built from the
   * tasks, and equal utilisations in their input order.
   */
  lemma PartitionOrder(tasks: seq<Task>, tag: SortTag, v: real)
    ensures multiset(SortItems(Items(tasks), tag)) == multiset(Items(tasks))
    ensures tag == DecreasingUtil ==> SortedBy(SortItems(Items(tasks), tag), ItemUtil, Descending)
    ensures tag == IncreasingUtil ==> SortedBy(SortItems(Items(tasks), tag), ItemUtil, Ascending)
    ensures WithKey(SortItems(Items(tasks), tag), ItemUtil, v) == WithKey(Items(tasks), ItemUtil, v)
  {
    match tag
    case DecreasingUtil =>
      SortBySorted(Items(tasks), ItemUtil, Descending);
      SortByStable(Items(tasks), ItemUtil, Descending, v);
    case IncreasingUtil =>
      SortBySorted(Items(tasks), ItemUtil, Ascending);
      SortByStable(Items(tasks), ItemUtil, Ascending, v);
    case Unsorted =>
  }
}
