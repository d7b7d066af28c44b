/** An ordered collection of tasks in which a name appears at most once when
    built by `Add`, with its aggregate totals and the responsibility query
    used for reporting. */
module TaskSets {
  import opened TimeRanges
  import opened Tasks
  import Sorting
  import Calendar

  type TaskSet = seq<Task>

  /** Some task of `ts` has the name `n` (the program's `in` test, which
      compares tasks by name). */
  predicate HasTaskNamed(ts: TaskSet, n: string) {
    exists u | u in ts :: u.name == n
  }

  ghost predicate DistinctNames(ts: TaskSet) {
    forall i, j | 0 <= i < j < |ts| :: ts[i].name != ts[j].name
  }

  /** `add`: a task whose name is already present is ignored; otherwise it
      is appended. */
  function Add(ts: TaskSet, t: Task): (r: TaskSet)
    ensures |ts| <= |r| <= |ts| + 1
    ensures r[..|ts|] == ts
    ensures |r| == |ts| + 1 <==> !HasTaskNamed(ts, t.name)
    ensures |r| == |ts| + 1 ==> r[|ts|] == t
    ensures HasTaskNamed(r, t.name)
  {
    if HasTaskNamed(ts, t.name) then ts
    else
      assert t in ts + [t];
      ts + [t]
  }

  /** `add` keeps names distinct. */
  lemma AddKeepsNamesDistinct(ts: TaskSet, t: Task)
    requires DistinctNames(ts)
    ensures DistinctNames(Add(ts, t))
  {
    var r := Add(ts, t);
    if |r| == |ts| + 1 {
      forall i | 0 <= i < |ts| ensures ts[i].name != t.name {
        assert ts[i] in ts;
      }
    }
  }

  /** The set obtained by adding `tasks` one by one to an empty set. */
  function FromAdds(tasks: seq<Task>): (r: TaskSet)
    ensures DistinctNames(r)
    ensures forall t | t in tasks :: HasTaskNamed(r, t.name)
    ensures forall u | u in r :: u in tasks
    decreases |tasks|
  {
    if |tasks| == 0 then []
    else
      var prev := FromAdds(tasks[..|tasks| - 1]);
      var last := tasks[|tasks| - 1];
      AddKeepsNamesDistinct(prev, last);
      var r := Add(prev, last);
      assert tasks == tasks[..|tasks| - 1] + [last];
      assert forall t | t in tasks[..|tasks| - 1] :: HasTaskNamed(r, t.name) by {
        forall t | t in tasks[..|tasks| - 1] ensures HasTaskNamed(r, t.name) {
          var u :| u in prev && u.name == t.name;
          assert u in r by {
            var k :| 0 <= k < |prev| && prev[k] == u;
            assert r[k] == u;
          }
        }
      }
      r
  }

  /** `names`: the task names in set order. */
  function Names(ts: TaskSet): (r: seq<string>)
    ensures |r| == |ts|
    ensures forall i | 0 <= i < |ts| :: r[i] == ts[i].name
  {
    seq(|ts|, i requires 0 <= i < |ts| => ts[i].name)
  }

  /** Adding a task with a new name appends exactly that name to the name
      list; adding a known name leaves the list as it was. */
  lemma AddAppendsName(ts: TaskSet, t: Task)
    ensures !HasTaskNamed(ts, t.name) ==> Names(Add(ts, t)) == Names(ts) + [t.name]
    ensures HasTaskNamed(ts, t.name) ==> Names(Add(ts, t)) == Names(ts)
  {
  }

  // ---------------------------------------------------------------------------
  // Responsibility on a date.
  // ---------------------------------------------------------------------------

  function PlanStart(t: Task): int { t.planSpan.start }

  /** The earliest planned start of a non-empty set. */
  function MinPlanStart(ts: TaskSet): (m: int)
    requires |ts| > 0
    ensures forall u | u in ts :: m <= PlanStart(u)
    ensures exists u | u in ts :: m == PlanStart(u)
    decreases |ts|
  {
    if |ts| == 1 then
      assert ts[0] in ts;
      PlanStart(ts[0])
    else
      var rest := MinPlanStart(ts[1..]);
      assert ts == [ts[0]] + ts[1..];
      assert ts[0] in ts;
      if PlanStart(ts[0]) <= rest then PlanStart(ts[0]) else rest
  }

  /** The start of the day the query is evaluated on: the day holding the
      later of `on` and the earliest planned start. */
  function BaseDay(ts: TaskSet, on: int): int {
    if |ts| == 0 then Calendar.AtHour(on, 0)
    else Calendar.AtHour(Max(on, MinPlanStart(ts)), 0)
  }

  /** A task is reported on the day starting at `base` when it has not
      started but is planned to start by the end of that day, when it is in
      progress, or when it finished on or after the start of that day. */
  predicate Responsible(t: Task, base: int) {
    if t.actualStart.None? then t.planSpan.start < base + Calendar.SecondsPerDay
    else if t.actualEnd.None? then true
    else base <= t.actualEnd.value
  }

  /** The filtering loop over the sorted tasks. */
  function PickResponsible(sorted: seq<Task>, base: int): (r: seq<string>)
    ensures forall x :: x in r <==> exists u :: u in sorted && u.name == x && Responsible(u, base)
    ensures IsSubsequence(r, Names(sorted))
    decreases |sorted|
  {
    if |sorted| == 0 then []
    else
      var rest := PickResponsible(sorted[1..], base);
      assert forall u :: u in sorted <==> u == sorted[0] || u in sorted[1..] by {
        assert sorted == [sorted[0]] + sorted[1..];
      }
      assert Names(sorted) == [sorted[0].name] + Names(sorted[1..]);
      SubsequenceCons(sorted[0].name, rest, Names(sorted[1..]));
      if Responsible(sorted[0], base) then [sorted[0].name] + rest else rest
  }

  lemma SubsequenceCons<T>(x: T, a: seq<T>, b: seq<T>)
    requires IsSubsequence(a, b)
    ensures IsSubsequence([x] + a, [x] + b)
    ensures IsSubsequence(a, [x] + b)
  {
    assert ([x] + a)[1..] == a;
    assert ([x] + b)[1..] == b;
  }

  /** `a` is obtained from `b` by deleting elements. */
  predicate IsSubsequence<T(==)>(a: seq<T>, b: seq<T>)
    decreases |b|
  {
    if |a| == 0 then true
    else if |b| == 0 then false
    else (a[0] == b[0] && IsSubsequence(a[1..], b[1..])) || IsSubsequence(a, b[1..])
  }

  /** Every element of a subsequence occurs in the sequence. */
  lemma {:induction false} SubsequenceElements<T>(a: seq<T>, b: seq<T>, x: T)
    requires IsSubsequence(a, b) && x in a
    ensures x in b
    decreases |b|
  {
    if a[0] == b[0] && IsSubsequence(a[1..], b[1..]) {
      if x != a[0] {
        assert x in a[1..] by { assert a == [a[0]] + a[1..]; }
        SubsequenceElements(a[1..], b[1..], x);
      }
    } else {
      SubsequenceElements(a, b[1..], x);
    }
  }

  /** Of a sequence without repeated elements, a subsequence is fixed by
      the elements it holds. */
  lemma {:induction false} SubsequenceUnique<T>(a: seq<T>, b: seq<T>, s: seq<T>)
    requires forall i, j | 0 <= i < j < |s| :: s[i] != s[j]
    requires IsSubsequence(a, s) && IsSubsequence(b, s)
    requires forall x :: x in a <==> x in b
    ensures a == b
    decreases |s|
  {
    if |s| > 0 {
      var h := s[0];
      assert h !in s[1..];
      if h in a {
        if !(a[0] == h && IsSubsequence(a[1..], s[1..])) {
          SubsequenceElements(a, s[1..], h);
        }
        if !(b[0] == h && IsSubsequence(b[1..], s[1..])) {
          SubsequenceElements(b, s[1..], h);
        }
        assert a == [h] + a[1..] && b == [h] + b[1..];
        forall x ensures x in a[1..] <==> x in b[1..] {
          if x in a[1..] {
            SubsequenceElements(a[1..], s[1..], x);
            assert x in b && x != h;
          }
          if x in b[1..] {
            SubsequenceElements(b[1..], s[1..], x);
            assert x in a && x != h;
          }
        }
        SubsequenceUnique(a[1..], b[1..], s[1..]);
        assert a == [h] + a[1..] && b == [h] + b[1..];
      } else {
        assert |a| > 0 ==> a[0] in a;
        assert |b| > 0 ==> b[0] in b;
        SubsequenceUnique(a, b, s[1..]);
      }
    }
  }

  /** When the names are distinct, the filter's result is the only
      subsequence of the names that lists exactly the responsible ones. */
  lemma PickResponsibleExact(sorted: seq<Task>, base: int, q: seq<string>)
    requires forall i, j | 0 <= i < j < |sorted| :: sorted[i].name != sorted[j].name
    requires IsSubsequence(q, Names(sorted))
    requires forall x :: x in q <==> exists u :: u in sorted && u.name == x && Responsible(u, base)
    ensures q == PickResponsible(sorted, base)
  {
    SubsequenceUnique(q, PickResponsible(sorted, base), Names(sorted));
  }

  /** `names_responsible`: the names of the tasks, in stable order of planned
      start, that are responsible on the base day. */
  function NamesResponsible(ts: TaskSet, on: int): (r: seq<string>)
    ensures |ts| == 0 ==> r == []
    ensures forall x :: x in r <==> exists u :: u in ts && u.name == x && Responsible(u, BaseDay(ts, on))
    ensures IsSubsequence(r, Names(Sorting.SortBy(ts, PlanStart)))
  {
    var sorted := Sorting.SortBy(ts, PlanStart);
    if |sorted| == 0 then []
    else
      SortedHeadIsMin(ts);
      var base :=
        if on < sorted[0].planSpan.start then Calendar.AtHour(sorted[0].planSpan.start, 0)
        else Calendar.AtHour(on, 0);
      assert base == BaseDay(ts, on);
      Sorting.SortKeepsElements(ts, PlanStart);
      PickResponsible(sorted, base)
  }

  /** The inclusion rule case by case: when names are distinct, a task is
      listed exactly when it is in progress, when it has not started and is
      planned to start before the base day ends, or when it finished no
      earlier than the start of the base day. */
  lemma NamesResponsibleCases(ts: TaskSet, on: int, u: Task)
    requires DistinctNames(ts) && u in ts
    ensures u.actualStart.Some? && u.actualEnd.None? ==> u.name in NamesResponsible(ts, on)
    ensures u.actualStart.None?
      ==> (u.name in NamesResponsible(ts, on)
           <==> u.planSpan.start < BaseDay(ts, on) + Calendar.SecondsPerDay)
    ensures u.actualStart.Some? && u.actualEnd.Some?
      ==> (u.name in NamesResponsible(ts, on) <==> BaseDay(ts, on) <= u.actualEnd.value)
  {
    var r := NamesResponsible(ts, on);
    if u.name in r {
      var v :| v in ts && v.name == u.name && Responsible(v, BaseDay(ts, on));
      var i :| 0 <= i < |ts| && ts[i] == u;
      var j :| 0 <= j < |ts| && ts[j] == v;
      assert i == j;
    }
  }

  /** The first task after sorting has the earliest planned start. */
  lemma SortedHeadIsMin(ts: TaskSet)
    requires |ts| > 0
    ensures Sorting.SortBy(ts, PlanStart)[0].planSpan.start == MinPlanStart(ts)
  {
    var head := Sorting.SortBy(ts, PlanStart)[0];
    Sorting.SortedHeadIsLeast(ts, PlanStart);
    var u :| u in ts && MinPlanStart(ts) == PlanStart(u);
    assert PlanStart(head) <= PlanStart(u);
  }

  // ---------------------------------------------------------------------------
  // Aggregates.
  // ---------------------------------------------------------------------------

  /** `total_planned_duration`. */
  function TotalPlanned(ts: TaskSet): int
    decreases |ts|
  {
    if |ts| == 0 then 0 else TotalPlanned(ts[..|ts| - 1]) + ts[|ts| - 1].plannedTotal
  }

  /** `total_planned_done_duration`. */
  function TotalPlannedDone(ts: TaskSet): int
    decreases |ts|
  {
    if |ts| == 0 then 0 else TotalPlannedDone(ts[..|ts| - 1]) + ts[|ts| - 1].plannedDone
  }

  /** `total_actual_done_duration`. */
  function TotalActualDone(ts: TaskSet): int
    decreases |ts|
  {
    if |ts| == 0 then 0 else TotalActualDone(ts[..|ts| - 1]) + ts[|ts| - 1].actualDone
  }

  /** `total_expected_actual_seconds`. */
  function TotalExpected(ts: TaskSet): real
    decreases |ts|
  {
    if |ts| == 0 then 0.0 else TotalExpected(ts[..|ts| - 1]) + ts[|ts| - 1].expectedActualTotal
  }

  /** Adding a task grows each total by that task's figure, or by nothing
      when its name is already present. */
  lemma AddGrowsTotals(ts: TaskSet, t: Task)
    ensures var r := Add(ts, t);
      && TotalPlanned(r) == TotalPlanned(ts) + (if HasTaskNamed(ts, t.name) then 0 else t.plannedTotal)
      && TotalPlannedDone(r) == TotalPlannedDone(ts) + (if HasTaskNamed(ts, t.name) then 0 else t.plannedDone)
      && TotalActualDone(r) == TotalActualDone(ts) + (if HasTaskNamed(ts, t.name) then 0 else t.actualDone)
      && TotalExpected(r) == TotalExpected(ts) + (if HasTaskNamed(ts, t.name) then 0.0 else t.expectedActualTotal)
  {
    var r := Add(ts, t);
    if !HasTaskNamed(ts, t.name) {
      assert r[..|r| - 1] == ts;
    }
  }

  /** `total_durations`: the four totals in one pass. */
  method TotalDurations(ts: TaskSet) returns (plannedTotal: int, plannedDone: int, actualDone: int, expected: real)
    ensures plannedTotal == TotalPlanned(ts)
    ensures plannedDone == TotalPlannedDone(ts)
    ensures actualDone == TotalActualDone(ts)
    ensures expected == TotalExpected(ts)
  {
    plannedTotal, plannedDone, actualDone, expected := 0, 0, 0, 0.0;
    var i := 0;
    while i < |ts|
      invariant 0 <= i <= |ts|
      invariant plannedTotal == TotalPlanned(ts[..i])
      invariant plannedDone == TotalPlannedDone(ts[..i])
      invariant actualDone == TotalActualDone(ts[..i])
      invariant expected == TotalExpected(ts[..i])
    {
      var t := ts[i];
      assert ts[..i + 1][..i] == ts[..i];
      plannedTotal := plannedTotal + t.plannedTotal;
      plannedDone := plannedDone + t.plannedDone;
      actualDone := actualDone + t.actualDone;
      expected := expected + t.expectedActualTotal;
      i := i + 1;
    }
    assert ts[..|ts|] == ts;
  }
}
