/** The calendar of non-working time built by `make_breaks` in prj.py: every
    night from 17:00 to 09:00, every lunch hour from 12:00 to 13:00, whole
    Saturdays and Sundays, and one public holiday, over a fixed reporting
    window. Instants are seconds in one local zone; day `d` starts at
    `d * 86400`, and day 0 is 1970-01-01, a Thursday. */
module Calendar {
  import opened TimeRanges
  import opened TimeRangeSets

  const SecondsPerHour := 3600
  const SecondsPerDay := 86400

  /** Day-of-week numbers, Monday first. */
  const Saturday := 5
  const Sunday := 6

  /** 2025-09-16, the first day of the reporting window. */
  const FirstDate := 20347
  /** 2025-10-01, the last day of the reporting window. */
  const LastDate := 20362
  /** 2025-09-23, a public holiday (a Tuesday). */
  const Holiday := 20354

  /** The instant `h` o'clock on day `d`. */
  function At(d: int, h: int): int {
    d * SecondsPerDay + h * SecondsPerHour
  }

  /** The day holding instant `t`. */
  function DayOf(t: int): int {
    t / SecondsPerDay
  }

  /** `t.at(h)`: the same day as `t`, at `h` o'clock. */
  function AtHour(t: int, h: int): int {
    At(DayOf(t), h)
  }

  function DayOfWeek(d: int): int {
    (d + 3) % 7
  }

  predicate IsWeekend(d: int) {
    DayOfWeek(d) == Saturday || DayOfWeek(d) == Sunday
  }

  lemma DayOfAt(d: int, h: int)
    requires 0 <= h < 24
    ensures DayOf(At(d, h)) == d
  {
  }

  lemma AtHourSameDay(d: int, h: int, k: int)
    requires 0 <= h < 24
    ensures AtHour(At(d, h), k) == At(d, k)
  {
    DayOfAt(d, h);
  }

  lemma NextDayAt(d: int, h: int)
    ensures At(d, h) + SecondsPerDay == At(d + 1, h)
  {
  }

  /** The day of the instant 09:00 on day `d`, its midnight and the next
      midnight. */
  lemma DayAround(d: int, t: int)
    requires t == At(d, 9)
    ensures DayOfWeek(DayOf(t)) == DayOfWeek(d)
    ensures AtHour(t, 0) == At(d, 0) && AtHour(t + SecondsPerDay, 0) == At(d + 1, 0)
  {
    DayOfAt(d, 9);
    NextDayAt(d, 9);
    AtHourSameDay(d, 9, 0);
    AtHourSameDay(d + 1, 9, 0);
  }

  /** The night that ends on the morning of day `d`. */
  function Night(d: int): TimeRange { Span(At(d - 1, 17), At(d, 9)) }

  function Lunch(d: int): TimeRange { Span(At(d, 12), At(d, 13)) }

  function WholeDay(d: int): TimeRange { Span(At(d, 0), At(d + 1, 0)) }

  /** `t` falls in a break the loop emits for day `d`. */
  ghost predicate DayBreak(d: int, t: int) {
    || Contains(Night(d), t)
    || Contains(Lunch(d), t)
    || (IsWeekend(d) && Contains(WholeDay(d), t))
  }

  /** `t` falls in the holiday or in a break of a day in `[FirstDate, d)`. */
  ghost predicate BreakBefore(d: int, t: int) {
    || Contains(WholeDay(Holiday), t)
    || exists e :: FirstDate <= e < d && DayBreak(e, t)
  }

  /** `t` is non-working time in the finished calendar: the loop covers the
      days `FirstDate` through `LastDate + 1`. */
  ghost predicate IsBreak(t: int) {
    BreakBefore(LastDate + 2, t)
  }

  /** The instant `t` lies in the working hours of day `d`. */
  ghost predicate WorkingHour(d: int, t: int) {
    (At(d, 9) <= t < At(d, 12)) || (At(d, 13) <= t < At(d, 17))
  }

  lemma BreakBeforeStep(d: int, t: int)
    requires FirstDate <= d
    ensures BreakBefore(d + 1, t) <==> BreakBefore(d, t) || DayBreak(d, t)
  {
    if BreakBefore(d + 1, t) && !Contains(WholeDay(Holiday), t) {
      var e :| FirstDate <= e < d + 1 && DayBreak(e, t);
      if e < d { assert BreakBefore(d, t); }
    }
  }

  /** One pass of the loop: adding the night, the lunch hour and (on a
      weekend) the whole of day `d` extends the calendar from the days before
      `d` to the days through `d`. */
  lemma DayStep(before: RangeSet, withNight: RangeSet, withLunch: RangeSet, after: RangeSet, d: int)
    requires FirstDate <= d
    requires forall t :: Covered(before, t) <==> BreakBefore(d, t)
    requires forall t :: Covered(withNight, t) <==> Covered(before, t) || Contains(Night(d), t)
    requires forall t :: Covered(withLunch, t) <==> Covered(withNight, t) || Contains(Lunch(d), t)
    requires forall t ::
      Covered(after, t) <==> Covered(withLunch, t) || (IsWeekend(d) && Contains(WholeDay(d), t))
    ensures forall t :: Covered(after, t) <==> BreakBefore(d + 1, t)
  {
    forall t ensures Covered(after, t) <==> BreakBefore(d + 1, t) {
      BreakBeforeStep(d, t);
    }
  }

  /** No break of any day reaches into the working hours of a weekday that is
      not the holiday. */
  lemma WorkingHoursAreFree(d: int, t: int)
    requires !IsWeekend(d) && d != Holiday && WorkingHour(d, t)
    ensures !IsBreak(t)
  {
    forall e ensures !DayBreak(e, t) {
      if Contains(WholeDay(e), t) {
        assert e == d;
      }
    }
  }

  /** What the calendar covers, day by day. */
  lemma BreakFacts()
    ensures forall d, t | FirstDate <= d <= LastDate + 1 && Contains(Night(d), t) :: IsBreak(t)
    ensures forall d, t | FirstDate <= d <= LastDate + 1 && Contains(Lunch(d), t) :: IsBreak(t)
    ensures forall d, t | FirstDate <= d <= LastDate + 1 && IsWeekend(d) && Contains(WholeDay(d), t)
      :: IsBreak(t)
    ensures forall t | Contains(WholeDay(Holiday), t) :: IsBreak(t)
    ensures forall d, t | !IsWeekend(d) && d != Holiday && WorkingHour(d, t) :: !IsBreak(t)
  {
    forall d, t | FirstDate <= d <= LastDate + 1 && Contains(Night(d), t) ensures IsBreak(t) {
      assert FirstDate <= d < LastDate + 2 && DayBreak(d, t);
    }
    forall d, t | FirstDate <= d <= LastDate + 1 && Contains(Lunch(d), t) ensures IsBreak(t) {
      assert FirstDate <= d < LastDate + 2 && DayBreak(d, t);
    }
    forall d, t | FirstDate <= d <= LastDate + 1 && IsWeekend(d) && Contains(WholeDay(d), t)
      ensures IsBreak(t)
    {
      assert FirstDate <= d < LastDate + 2 && DayBreak(d, t);
    }
    forall d, t | !IsWeekend(d) && d != Holiday && WorkingHour(d, t) ensures !IsBreak(t) {
      WorkingHoursAreFree(d, t);
    }
  }

  /** On the first day, 08:00 and 12:00 are breaks and 10:00 is not. */
  lemma FirstDayHasGap()
    ensures IsBreak(At(FirstDate, 8)) && IsBreak(At(FirstDate, 12))
    ensures !IsBreak(At(FirstDate, 10))
  {
    BreakFacts();
    assert Contains(Night(FirstDate), At(FirstDate, 8));
    assert Contains(Lunch(FirstDate), At(FirstDate, 12));
    assert DayOfWeek(FirstDate) == 1;
    assert WorkingHour(FirstDate, At(FirstDate, 10));
  }

  /** `make_breaks`: the holiday first, then for each day `d` from the first
      date through the day after the last date the night ending on `d`,
      the lunch hour of `d`, and the whole of `d` when it is a Saturday or
      Sunday. */
  method MakeBreaks() returns (breaks: RangeSet)
    ensures Normalized(breaks)
    ensures forall t :: Covered(breaks, t) <==> IsBreak(t)
    ensures forall d, t | FirstDate <= d <= LastDate + 1 && Contains(Night(d), t) :: Covered(breaks, t)
    ensures forall d, t | FirstDate <= d <= LastDate + 1 && Contains(Lunch(d), t) :: Covered(breaks, t)
    ensures forall d, t | FirstDate <= d <= LastDate + 1 && IsWeekend(d) && Contains(WholeDay(d), t)
      :: Covered(breaks, t)
    ensures forall t | Contains(WholeDay(Holiday), t) :: Covered(breaks, t)
    ensures forall d, t | !IsWeekend(d) && d != Holiday && WorkingHour(d, t) :: !Covered(breaks, t)
  {
    var breakStart1 := At(FirstDate - 1, 17);
    var breakEnd1 := At(FirstDate, 9);
    var breakStart2 := At(FirstDate, 12);
    var breakEnd2 := At(FirstDate, 13);

    breaks := Add([], WholeDay(Holiday));
    assert forall t :: !Covered([], t);
    ghost var d := FirstDate;
    while breakStart1 <= At(LastDate + 1, 0)
      invariant FirstDate <= d <= LastDate + 2
      invariant breakStart1 == At(d - 1, 17) && breakEnd1 == At(d, 9)
      invariant breakStart2 == At(d, 12) && breakEnd2 == At(d, 13)
      invariant Normalized(breaks)
      invariant forall t :: Covered(breaks, t) <==> BreakBefore(d, t)
      decreases At(LastDate + 1, 0) - breakStart1
    {
      ghost var before := breaks;
      assert Span(breakStart1, breakEnd1) == Night(d);
      breaks := Add(breaks, Span(breakStart1, breakEnd1));
      ghost var withNight := breaks;
      assert Span(breakStart2, breakEnd2) == Lunch(d);
      breaks := Add(breaks, Span(breakStart2, breakEnd2));
      ghost var withLunch := breaks;
      DayAround(d, breakEnd1);
      var weekday := DayOfWeek(DayOf(breakEnd1));
      if weekday == Saturday || weekday == Sunday {
        breaks := Add(breaks, Span(AtHour(breakEnd1, 0), AtHour(breakEnd1 + SecondsPerDay, 0)));
        assert forall t :: Covered(breaks, t) <==> Covered(withLunch, t) || Contains(WholeDay(d), t);
      }
      DayStep(before, withNight, withLunch, breaks, d);
      breakStart1 := breakStart1 + SecondsPerDay;
      breakEnd1 := breakEnd1 + SecondsPerDay;
      breakStart2 := breakStart2 + SecondsPerDay;
      breakEnd2 := breakEnd2 + SecondsPerDay;
      d := d + 1;
    }
    assert d == LastDate + 2;
    BreakFacts();
  }
}
