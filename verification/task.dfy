/** One work item: its planned and actual spans, its progress in percent and
    the reference instant `now`. Construction first repairs inconsistent
    fields (raising a warning flag instead of printing), then derives the
    working-time totals by subtracting the break calendar. */
module Tasks {
  import opened Options
  import opened TimeRanges
  import opened TimeRangeSets
  import Calendar

  /** The fields the repair pass reads and rewrites. */
  datatype Fields = Fields(
    planStart: int,
    planEnd: int,
    actualStart: Option<int>,
    actualEnd: Option<int>,
    progress: int,
    now: int)

  /** Repaired fields and whether any repair or warning happened. */
  datatype Repaired = Repaired(fields: Fields, wasWarned: bool)

  /** A constructed task. `plannedDone` is the total duration of the elapsed
      part of the plan; `expectedActualTotal` is the estimated total effort
      in seconds. */
  datatype Task = Task(
    name: string,
    planSpan: TimeRange,
    actualStart: Option<int>,
    actualEnd: Option<int>,
    progress: int,
    now: int,
    wasWarned: bool,
    plan: RangeSet,
    actual: Option<RangeSet>,
    plannedTotal: int,
    plannedDone: int,
    actualDone: int,
    expectedActualTotal: real)

  /** Every check of the repair pass already passes: nothing would fire. */
  predicate Consistent(f: Fields) {
    && f.planStart < f.planEnd
    && (f.actualStart.None? ==> f.actualEnd.None?)
    && (f.actualStart.Some? && f.actualEnd.Some? ==> f.actualStart.value < f.actualEnd.value)
    && !(f.actualStart.Some? && f.actualEnd.None? && f.actualStart.value > f.now && f.progress > 0)
    && !(f.actualEnd.Some? && f.actualEnd.value > f.now)
    && !(f.actualStart.None? && f.progress > 0)
    && f.progress <= 100
    && (f.actualEnd.Some? ==> f.progress == 100)
    && (f.actualStart.Some? ==> f.progress >= 0)
  }

  /** The orderings the derivation relies on when it builds ranges. */
  predicate Ordered(f: Fields) {
    && f.planStart < f.planEnd
    && (f.actualEnd.Some? ==> f.actualStart.Some? && f.actualStart.value < f.actualEnd.value)
  }

  /** What holds of the fields after the repair pass. */
  predicate Settled(f: Fields) {
    && Ordered(f)
    && f.progress <= 100
    && (f.actualEnd.Some? ==> f.progress == 100)
    && (f.progress > 0 ==> f.actualStart.Some?)
    && (f.actualStart.Some? ==> f.progress >= 0)
  }

  /** `_validate`: the repair rules in the program's order. */
  function Validate(f: Fields): (r: Repaired)
    ensures Settled(r.fields)
    ensures r.fields.now == f.now
  {
    // Planned span: widen an empty one, swap a reversed one.
    var planStart := if f.planStart > f.planEnd then f.planEnd else f.planStart;
    var planEnd :=
      if f.planStart == f.planEnd then f.planEnd + 1
      else if f.planStart > f.planEnd then f.planStart
      else f.planEnd;
    var w1 := f.planStart >= f.planEnd;
    // Actual span: a lone end becomes the start; an empty span is widened,
    // a reversed one swapped.
    var lone := f.actualStart.None? && f.actualEnd.Some?;
    var both := f.actualStart.Some? && f.actualEnd.Some?;
    var actualStart :=
      if lone then f.actualEnd
      else if both && f.actualStart.value > f.actualEnd.value then f.actualEnd
      else f.actualStart;
    var actualEnd :=
      if lone then None
      else if both && f.actualStart.value == f.actualEnd.value then Some(f.actualEnd.value + 1)
      else if both && f.actualStart.value > f.actualEnd.value then f.actualStart
      else f.actualEnd;
    var w2 := w1 || lone || (both && f.actualStart.value >= f.actualEnd.value);
    // A start in the future with no end and some progress is withdrawn.
    var futureStart :=
      actualStart.Some? && actualEnd.None? && actualStart.value > f.now && f.progress > 0;
    var actualStart3 := if futureStart then None else actualStart;
    var progress3 := if futureStart then 0 else f.progress;
    var w3 := w2 || futureStart;
    // An end in the future is only warned about.
    var w4 := w3 || (actualEnd.Some? && actualEnd.value > f.now);
    // Progress without a start: the plan's start is taken as the start.
    var missingStart := actualStart3.None? && progress3 > 0;
    var actualStart5 := if missingStart then Some(planStart) else actualStart3;
    var w5 := w4 || missingStart;
    // Progress above 100 is capped.
    var progress6 := if progress3 > 100 then 100 else progress3;
    var w6 := w5 || progress3 > 100;
    // A finished task is 100% done.
    var notDone := actualEnd.Some? && progress6 != 100;
    var progress7 := if notDone then 100 else progress6;
    var w7 := w6 || notDone;
    // A started task has no negative progress (silently).
    var progress8 := if actualStart5.Some? && progress7 < 0 then 0 else progress7;
    Repaired(Fields(planStart, planEnd, actualStart5, actualEnd, progress8, f.now), w7)
  }

  /** The planned span: an ordered one is kept, an empty one is widened by
      one second, a reversed one is swapped; both repairs warn. */
  lemma ValidatePlan(f: Fields)
    ensures var r := Validate(f);
      && (f.planStart < f.planEnd
          ==> r.fields.planStart == f.planStart && r.fields.planEnd == f.planEnd)
      && (f.planStart == f.planEnd
          ==> r.fields.planStart == f.planStart && r.fields.planEnd == f.planStart + 1 && r.wasWarned)
      && (f.planStart > f.planEnd
          ==> r.fields.planStart == f.planEnd && r.fields.planEnd == f.planStart && r.wasWarned)
  {
  }

  /** The actual span: a lone end becomes the start (withdrawn again when it
      lies in the future with progress), an ordered pair is kept even when
      the end lies in the future (only a warning), an empty pair is widened
      by one second and a reversed one swapped (both warn), and a future start with
      no end and some progress is withdrawn with progress reset to 0. */
  lemma ValidateActual(f: Fields)
    ensures var r := Validate(f);
      && (f.actualStart.None? && f.actualEnd.Some?
          ==> && r.wasWarned
              && r.fields.actualEnd.None?
              && r.fields.actualStart
                 == (if f.actualEnd.value > f.now && f.progress > 0 then None else f.actualEnd))
      && (f.actualStart.Some? && f.actualEnd.Some? && f.actualStart.value < f.actualEnd.value
          ==> r.fields.actualStart == f.actualStart && r.fields.actualEnd == f.actualEnd)
      && (f.actualStart.Some? && f.actualEnd.Some? && f.actualStart.value == f.actualEnd.value
          ==> && r.fields.actualStart == f.actualStart
              && r.fields.actualEnd == Some(f.actualEnd.value + 1)
              && r.wasWarned)
      && (f.actualStart.Some? && f.actualEnd.Some? && f.actualStart.value > f.actualEnd.value
          ==> r.fields.actualStart == f.actualEnd && r.fields.actualEnd == f.actualStart && r.wasWarned)
      && (r.fields.actualEnd.Some? && r.fields.actualEnd.value > f.now ==> r.wasWarned)
      && (f.actualStart.Some? && f.actualEnd.None? && f.actualStart.value > f.now && f.progress > 0
          ==> r.fields.actualStart.None? && r.fields.progress == 0 && r.wasWarned)
  {
  }

  /** The progress repairs: progress without any actual span takes the
      planned start as the actual start, progress above 100 is capped, and
      a finished task's progress is forced to 100; each repair warns. */
  lemma ValidateProgress(f: Fields)
    ensures var r := Validate(f);
      && (f.actualStart.None? && f.actualEnd.None? && 0 < f.progress
          ==> && r.fields.actualStart == Some(r.fields.planStart)
              && r.fields.progress == Min(f.progress, 100)
              && r.wasWarned)
      && (100 < f.progress ==> r.wasWarned)
      && (100 < f.progress && r.fields.actualStart.Some? ==> r.fields.progress == 100)
      && (r.fields.actualEnd.Some? && f.progress != 100 ==> r.fields.progress == 100 && r.wasWarned)
  {
  }

  /** Negative progress survives only on a task that has not started, and
      then unchanged. */
  lemma ValidateNegativeProgress(f: Fields)
    ensures Validate(f).fields.progress < 0
      ==> Validate(f).fields.actualStart.None? && Validate(f).fields.progress == f.progress
  {
  }

  /** Fields that pass every check come back unchanged and unwarned, and
      only those. */
  lemma ValidateKeepsConsistent(f: Fields)
    ensures Validate(f) == Repaired(f, false) <==> Consistent(f)
  {
  }

  /** The repair pass is not idempotent: progress without a start on a task
      planned for the future gets the planned start on the first pass, and
      the second pass withdraws that start as lying in the future. */
  lemma ValidateNotIdempotent(f: Fields)
    requires f.planStart < f.planEnd
    requires f.actualStart.None? && f.actualEnd.None?
    requires 0 < f.progress <= 100 && f.now < f.planStart
    ensures Validate(f).fields.actualStart == Some(f.planStart)
    ensures Validate(Validate(f).fields).fields.actualStart.None?
    ensures Validate(Validate(f).fields).fields.progress == 0
  {
  }

  // ---------------------------------------------------------------------------
  // Derivation of the working-time totals.
  // ---------------------------------------------------------------------------

  /** Which subtraction removes the breaks from a span: the program's own
      (`TimeRangeSets.Sub`), which the constructor uses, or the corrected set
      difference (`TimeRangeSets.Difference`). */
  datatype Subtraction = AsWritten | Corrected

  /** Instant `t` survives subtracting `breaks`: under the program's
      subtraction when some break misses it, under the corrected one when
      no break covers it. */
  ghost predicate Kept(how: Subtraction, breaks: RangeSet, t: int) {
    if how.AsWritten? then Misses(breaks, t) else !Covered(breaks, t)
  }

  /** The instants of `[a, b)` that survive subtracting `breaks`. */
  ghost function KeptInstants(how: Subtraction, a: int, b: int, breaks: RangeSet): set<int> {
    set t | t in Interval(a, b) && Kept(how, breaks, t)
  }

  /** A canonical set covering exactly the surviving instants of `[a, b)`
      lasts as many seconds as there are such instants. */
  lemma CountKept(w: RangeSet, how: Subtraction, a: int, b: int, breaks: RangeSet)
    requires Normalized(w)
    requires forall t :: Covered(w, t) <==> a <= t < b && Kept(how, breaks, t)
    ensures TotalDuration(w) == |KeptInstants(how, a, b, breaks)|
  {
    forall t ensures t in Points(w) <==> t in KeptInstants(how, a, b, breaks) {
      PointsAreCovered(w, t);
      assert t in Interval(a, b) <==> Between(a, t, b);
    }
    assert Points(w) == KeptInstants(how, a, b, breaks);
  }

  /** `span - breaks` (task.py builds the one-range set of the span and
      subtracts the calendar): the instants of the span that survive. */
  function WorkIn(how: Subtraction, span: TimeRange, breaks: RangeSet): (w: RangeSet)
    ensures Normalized(w)
    ensures forall t :: Covered(w, t) <==> Contains(span, t) && Kept(how, breaks, t)
    ensures TotalDuration(w) == |KeptInstants(how, span.start, span.end, breaks)|
  {
    forall t ensures Covered([span], t) <==> Contains(span, t) {
      CoveredSingleton(span, t);
    }
    var w := if how.AsWritten? then Sub([span], breaks) else Difference([span], breaks);
    CountKept(w, how, span.start, span.end, breaks);
    w
  }

  /** Working time inside a span never exceeds the span's length. */
  lemma WorkInBounded(how: Subtraction, span: TimeRange, breaks: RangeSet)
    ensures 0 <= TotalDuration(WorkIn(how, span, breaks)) <= span.end - span.start
  {
    forall t | Covered(WorkIn(how, span, breaks), t) ensures Covered([span], t) {
      CoveredSingleton(span, t);
    }
    CoverBoundsTotal(WorkIn(how, span, breaks), [span]);
    assert TotalDuration([span]) == Duration(span) + TotalDuration([span][1..]);
  }

  /** A span nested in another holds no more working time. */
  lemma WorkInMonotone(how: Subtraction, short: TimeRange, long: TimeRange, breaks: RangeSet)
    requires long.start <= short.start && short.end <= long.end
    ensures TotalDuration(WorkIn(how, short, breaks)) <= TotalDuration(WorkIn(how, long, breaks))
  {
    CoverBoundsTotal(WorkIn(how, short, breaks), WorkIn(how, long, breaks));
  }

  /** Where the actual work runs to: the actual end, or `now` while the
      task is unfinished. */
  function ActualUntil(f: Fields): int {
    if f.actualEnd.Some? then f.actualEnd.value else f.now
  }

  /** The working time actually spent: up to the actual end when there is
      one, up to `now` for a started task, none otherwise. */
  function ActualWork(how: Subtraction, f: Fields, breaks: RangeSet): (a: Option<RangeSet>)
    requires Ordered(f)
    ensures a.None? <==> f.actualEnd.None? && (f.actualStart.None? || f.actualStart.value >= f.now)
    ensures a.Some? ==> f.actualStart.Some? && f.actualStart.value < ActualUntil(f)
    ensures a.Some? ==> Normalized(a.value)
    ensures a.Some? ==> forall t ::
      Covered(a.value, t) <==> f.actualStart.value <= t < ActualUntil(f) && Kept(how, breaks, t)
    ensures a.Some?
      ==> TotalDuration(a.value) == |KeptInstants(how, f.actualStart.value, ActualUntil(f), breaks)|
    ensures a.Some? ==> 0 <= TotalDuration(a.value) <= ActualUntil(f) - f.actualStart.value
  {
    if f.actualEnd.Some? then
      var span: TimeRange := Span(f.actualStart.value, f.actualEnd.value);
      WorkInBounded(how, span, breaks);
      Some(WorkIn(how, span, breaks))
    else if f.actualStart.Some? && f.actualStart.value < f.now then
      var span: TimeRange := Span(f.actualStart.value, f.now);
      WorkInBounded(how, span, breaks);
      Some(WorkIn(how, span, breaks))
    else None
  }

  /** The planned working time already elapsed at `now`. The program keeps
      the set itself here; the model keeps its total duration. */
  function PlannedDone(how: Subtraction, f: Fields, breaks: RangeSet): (d: int)
    requires Ordered(f)
    ensures 0 <= d <= TotalDuration(WorkIn(how, Span(f.planStart, f.planEnd), breaks))
    ensures f.planStart < f.now
      ==> d == |KeptInstants(how, f.planStart, Min(f.now, f.planEnd), breaks)|
    ensures f.planStart >= f.now ==> d == 0
  {
    if f.planStart < f.now then
      var span: TimeRange := Span(f.planStart, Min(f.now, f.planEnd));
      WorkInMonotone(how, span, Span(f.planStart, f.planEnd), breaks);
      TotalDuration(WorkIn(how, span, breaks))
    else 0
  }

  /** The expected total effort in seconds: extrapolated from the work done
      and the progress when there is progress, else the planned total. */
  function ExpectedTotal(actualDone: int, plannedTotal: int, progress: int): (e: real)
    ensures progress > 0 ==> e * (progress as real) == (actualDone * 100) as real
    ensures progress <= 0 ==> e == plannedTotal as real
  {
    if progress > 0 then (actualDone * 100) as real / (progress as real)
    else plannedTotal as real
  }

  /** The derivation that follows the repair in the constructor. */
  function Derive(how: Subtraction, name: string, f: Fields, wasWarned: bool, breaks: RangeSet): (t: Task)
    requires Ordered(f)
    ensures t.name == name && t.wasWarned == wasWarned
    ensures t.planSpan.start == f.planStart && t.planSpan.end == f.planEnd
    ensures t.actualStart == f.actualStart && t.actualEnd == f.actualEnd
    ensures t.progress == f.progress && t.now == f.now
    ensures 0 <= t.plannedTotal <= f.planEnd - f.planStart
    ensures t.plannedTotal == |KeptInstants(how, f.planStart, f.planEnd, breaks)|
    ensures 0 <= t.plannedDone <= t.plannedTotal
    ensures f.planStart < f.now
      ==> t.plannedDone == |KeptInstants(how, f.planStart, Min(f.now, f.planEnd), breaks)|
    ensures f.planStart >= f.now ==> t.plannedDone == 0
    ensures t.expectedActualTotal == ExpectedTotal(t.actualDone, t.plannedTotal, t.progress)
  {
    var planSpan: TimeRange := Span(f.planStart, f.planEnd);
    var plan := WorkIn(how, planSpan, breaks);
    WorkInBounded(how, planSpan, breaks);
    var actual := ActualWork(how, f, breaks);
    var plannedTotal := TotalDuration(plan);
    var plannedDone := PlannedDone(how, f, breaks);
    var actualDone := if actual.Some? then TotalDuration(actual.value) else 0;
    var expected := ExpectedTotal(actualDone, plannedTotal, f.progress);
    Task(name, planSpan, f.actualStart, f.actualEnd, f.progress, f.now, wasWarned,
         plan, actual, plannedTotal, plannedDone, actualDone, expected)
  }

  /** The actual working time exists exactly for a finished task or one
      started before now; it holds the instants from the actual start to
      the actual end (or to `now`) that survive the subtraction, and the
      actual total counts them; without it the actual total is 0. */
  lemma DeriveActual(how: Subtraction, name: string, f: Fields, wasWarned: bool, breaks: RangeSet)
    requires Ordered(f)
    ensures var t := Derive(how, name, f, wasWarned, breaks);
      && (t.actual.None? <==> f.actualEnd.None? && (f.actualStart.None? || f.actualStart.value >= f.now))
      && (t.actual.None? ==> t.actualDone == 0)
      && (t.actual.Some? ==> forall x ::
            Covered(t.actual.value, x) <==> f.actualStart.value <= x < ActualUntil(f) && Kept(how, breaks, x))
      && (t.actual.Some?
          ==> t.actualDone == |KeptInstants(how, f.actualStart.value, ActualUntil(f), breaks)|)
      && (f.actualEnd.Some? ==> 0 <= t.actualDone <= f.actualEnd.value - f.actualStart.value)
      && (f.actualEnd.None? && f.actualStart.Some? ==> 0 <= t.actualDone <= Max(0, f.now - f.actualStart.value))
  {
    var t := Derive(how, name, f, wasWarned, breaks);
    var a := ActualWork(how, f, breaks);
    assert t.actual == a;
    assert t.actualDone == if a.Some? then TotalDuration(a.value) else 0;
  }

  /** The derived plan holds exactly the planned instants that survive the
      subtraction, and the planned total counts them. */
  lemma DerivePlanIsWorkingTime(how: Subtraction, name: string, f: Fields, wasWarned: bool, breaks: RangeSet)
    requires Ordered(f)
    ensures var t := Derive(how, name, f, wasWarned, breaks);
      && (forall x :: Covered(t.plan, x) <==> f.planStart <= x < f.planEnd && Kept(how, breaks, x))
      && t.plannedTotal == |Points(t.plan)|
  {
  }

  /** The calendar the program builds has a gap between two breaks on its
      first day, so every instant lies outside some break: under the
      program's subtraction every instant survives. */
  lemma CalendarMissesAll(breaks: RangeSet)
    requires Normalized(breaks)
    requires forall t :: Covered(breaks, t) <==> Calendar.IsBreak(t)
    ensures forall t :: Kept(AsWritten, breaks, t)
  {
    Calendar.FirstDayHasGap();
    GapNeedsTwoRanges(breaks, Calendar.At(Calendar.FirstDate, 8),
      Calendar.At(Calendar.FirstDate, 10), Calendar.At(Calendar.FirstDate, 12));
    SeparatedMaskMissesAll(breaks);
  }

  /** With the calendar the program builds, the program's own subtraction
      removes no break at all: every span comes back whole. */
  lemma WorkInIgnoresCalendar(span: TimeRange, breaks: RangeSet)
    requires Normalized(breaks)
    requires forall t :: Covered(breaks, t) <==> Calendar.IsBreak(t)
    ensures WorkIn(AsWritten, span, breaks) == [span]
    ensures TotalDuration(WorkIn(AsWritten, span, breaks)) == span.end - span.start
  {
    CalendarMissesAll(breaks);
    forall t ensures Covered(WorkIn(AsWritten, span, breaks), t) <==> Covered([span], t) {
      CoveredSingleton(span, t);
    }
    CanonicalFormUnique(WorkIn(AsWritten, span, breaks), [span]);
    assert TotalDuration([span]) == Duration(span) + TotalDuration([span][1..]);
  }

  /** When every instant survives, `[a, b)` keeps all its instants. */
  lemma KeptEverything(a: int, b: int, breaks: RangeSet)
    requires a <= b
    requires forall t :: Kept(AsWritten, breaks, t)
    ensures |KeptInstants(AsWritten, a, b, breaks)| == b - a
  {
    assert KeptInstants(AsWritten, a, b, breaks) == Interval(a, b);
    CardInterval(a, b);
  }

  /** What the constructor computes with the calendar the program builds:
      the planned total is the raw planned length, planned done the raw
      elapsed part of the plan, and the actual total the raw length from
      the actual start to the actual end (or to `now`). No break is ever
      subtracted. */
  lemma NewTaskIgnoresCalendar(
    name: string, line: int, progress: int, planStart: int, planEnd: int,
    actualStart: Option<int>, actualEnd: Option<int>, now: int, breaks: RangeSet)
    requires Normalized(breaks)
    requires forall t :: Covered(breaks, t) <==> Calendar.IsBreak(t)
    ensures var t := NewTask(name, line, progress, planStart, planEnd, actualStart, actualEnd, now, breaks);
      && t.plannedTotal == t.planSpan.end - t.planSpan.start
      && (t.planSpan.start < t.now ==> t.plannedDone == Min(t.now, t.planSpan.end) - t.planSpan.start)
      && (t.actual.Some? ==> t.actualDone == ActualUntil(Fields(
            t.planSpan.start, t.planSpan.end, t.actualStart, t.actualEnd, t.progress, t.now)) - t.actualStart.value)
  {
    var t := NewTask(name, line, progress, planStart, planEnd, actualStart, actualEnd, now, breaks);
    var f := Validate(Fields(planStart, planEnd, actualStart, actualEnd, progress, now)).fields;
    assert t == Derive(AsWritten, TaskName(name, line), f, t.wasWarned, breaks);
    CalendarMissesAll(breaks);
    KeptEverything(f.planStart, f.planEnd, breaks);
    if f.planStart < f.now {
      KeptEverything(f.planStart, Min(f.now, f.planEnd), breaks);
    }
    DeriveActual(AsWritten, TaskName(name, line), f, t.wasWarned, breaks);
    if t.actual.Some? {
      KeptEverything(f.actualStart.value, ActualUntil(f), breaks);
    }
  }

  /** On the first day, the corrected working time between 09:00 and 13:00
      is the morning up to the lunch hour. */
  lemma FirstMorningWork(breaks: RangeSet)
    requires forall t :: Covered(breaks, t) <==> Calendar.IsBreak(t)
    ensures var span: TimeRange := Span(Calendar.At(Calendar.FirstDate, 9), Calendar.At(Calendar.FirstDate, 13));
      WorkIn(Corrected, span, breaks) == [Span(Calendar.At(Calendar.FirstDate, 9), Calendar.At(Calendar.FirstDate, 12))]
  {
    var d := Calendar.FirstDate;
    var span: TimeRange := Span(Calendar.At(d, 9), Calendar.At(d, 13));
    var morning: TimeRange := Span(Calendar.At(d, 9), Calendar.At(d, 12));
    assert Calendar.DayOfWeek(d) == 1;
    forall t ensures Covered(WorkIn(Corrected, span, breaks), t) <==> Covered([morning], t) {
      CoveredSingleton(morning, t);
      if Contains(morning, t) {
        assert Calendar.WorkingHour(d, t);
        Calendar.WorkingHoursAreFree(d, t);
      } else if Contains(span, t) {
        assert Calendar.DayBreak(d, t);
        assert Calendar.BreakBefore(Calendar.LastDate + 2, t);
      }
    }
    CanonicalFormUnique(WorkIn(Corrected, span, breaks), [morning]);
  }

  /** A task planned from 09:00 to 13:00 on the first day gets four hours
      of planned working time from the program: the lunch hour is counted. */
  lemma FirstMorningPlanAsWritten(name: string, f: Fields, wasWarned: bool, breaks: RangeSet)
    requires f.planStart == Calendar.At(Calendar.FirstDate, 9)
    requires f.planEnd == Calendar.At(Calendar.FirstDate, 13)
    requires Ordered(f)
    requires Normalized(breaks)
    requires forall t :: Covered(breaks, t) <==> Calendar.IsBreak(t)
    ensures Derive(AsWritten, name, f, wasWarned, breaks).plannedTotal == 4 * Calendar.SecondsPerHour
  {
    var span: TimeRange := Span(f.planStart, f.planEnd);
    WorkInIgnoresCalendar(span, breaks);
    assert Derive(AsWritten, name, f, wasWarned, breaks).plannedTotal
      == TotalDuration(WorkIn(AsWritten, span, breaks));
  }

  /** With the corrected subtraction the same plan has three hours of
      working time: the lunch hour is not counted. */
  lemma FirstMorningPlan(name: string, f: Fields, wasWarned: bool, breaks: RangeSet)
    requires f.planStart == Calendar.At(Calendar.FirstDate, 9)
    requires f.planEnd == Calendar.At(Calendar.FirstDate, 13)
    requires Ordered(f)
    requires forall t :: Covered(breaks, t) <==> Calendar.IsBreak(t)
    ensures Derive(Corrected, name, f, wasWarned, breaks).plannedTotal == 3 * Calendar.SecondsPerHour
  {
    var morning: TimeRange := Span(f.planStart, Calendar.At(Calendar.FirstDate, 12));
    FirstMorningWork(breaks);
    assert TotalDuration([morning]) == Duration(morning) + TotalDuration([morning][1..]);
  }

  /** Decimal digits of a natural number. */
  function Digits(n: nat): string
    decreases n
  {
    var d := [(48 + n % 10) as char];
    if n < 10 then d else Digits(n / 10) + d
  }

  /** Python's `str(n)` for an integer. */
  function IntToString(n: int): string {
    if n < 0 then "-" + Digits(-n) else Digits(n)
  }

  /** The task's name is the given name tagged with its spreadsheet line. */
  function TaskName(name: string, line: int): string {
    name + "-line" + IntToString(line)
  }

  /** The constructor: repair, then derive. Since the repaired fields are
      ordered, no range built during derivation is ever refused. */
  function NewTask(
    name: string, line: int, progress: int, planStart: int, planEnd: int,
    actualStart: Option<int>, actualEnd: Option<int>, now: int, breaks: RangeSet): (t: Task)
    ensures var r := Validate(Fields(planStart, planEnd, actualStart, actualEnd, progress, now));
      && t.wasWarned == r.wasWarned
      && Fields(t.planSpan.start, t.planSpan.end, t.actualStart, t.actualEnd, t.progress, t.now) == r.fields
      && Settled(Fields(t.planSpan.start, t.planSpan.end, t.actualStart, t.actualEnd, t.progress, t.now))
      && t.plannedTotal == |KeptInstants(AsWritten, t.planSpan.start, t.planSpan.end, breaks)|
      && t.plannedDone <= t.plannedTotal <= t.planSpan.end - t.planSpan.start
    ensures t.name == TaskName(name, line)
  {
    var r := Validate(Fields(planStart, planEnd, actualStart, actualEnd, progress, now));
    Derive(AsWritten, TaskName(name, line), r.fields, r.wasWarned, breaks)
  }

  /** `__eq__`: tasks are the same when their names are. */
  predicate SameTask(a: Task, b: Task) {
    a.name == b.name
  }

  /** `is_overlap`: the planned spans share an instant. */
  predicate IsOverlap(a: Task, b: Task) {
    Overlap(a.planSpan, b.planSpan)
  }

  /** Overlap of tasks is symmetric, and every task overlaps itself. */
  lemma IsOverlapSymmetric(a: Task, b: Task)
    ensures IsOverlap(a, b) <==> IsOverlap(b, a)
    ensures IsOverlap(a, a)
    ensures IsOverlap(a, b) <==> exists t :: Contains(a.planSpan, t) && Contains(b.planSpan, t)
  {
    OverlapMeansSharedInstant(a.planSpan, b.planSpan);
  }
}
