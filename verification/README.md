# Shishiodoshi working-time accounting, modelled in Dafny

Shishiodoshi reads a project spreadsheet and reports progress. Its core is a
small interval engine with working-time accounting on top of it:

- **TimeRange**: a half-open span `[start, end)`. Its constructor refuses an
  empty or reversed span. It has an overlap test, a difference of two ranges
  in zero, one or two pieces, and a duration.
- **TimeRangeSet**: a list of ranges kept in canonical form. The list is
  sorted by start, and overlapping or touching ranges are merged. The set
  also has a re-normalizing `add`, a "subtraction" of a mask set, and a
  total duration.
- **Task**: a work item. Its constructor first repairs inconsistent
  timestamps and progress. A repair raises the `was_warned` flag, where the
  program prints a message. It then derives the planned, elapsed-planned and
  actual working times by subtracting the break calendar, and it estimates
  the total effort.
- **TaskSet, Member, MemberSet**: collections in insertion order, keyed by
  name. A TaskSet has four totals and a date-relative "responsible" query. A
  member raises a warning when a newly assigned task overlaps one they
  already hold.
- **make_breaks**: builds the calendar of non-working time. That is every
  night from 17:00 to 09:00, every lunch hour, every Saturday and Sunday,
  and one public holiday, over a fixed reporting window.

Instants are integer seconds in a single local zone. Day `d` starts at
`d * 86400`, and day 0 is 1970-01-01, a Thursday. The reporting window runs
from day 20347 (2025-09-16) to day 20362 (2025-10-01). The holiday is day
20354 (2025-09-23).

Modules, one per source file, plus two helper modules (`Options`, `Sorting`):

| module | file | models |
|---|---|---|
| `Options` | options.dfy | `Option` and `Result` |
| `Sorting` | sorting.dfy | Python's stable `sorted(key=...)` |
| `TimeRanges` | timerange.dfy | `timerange/timerange.py` |
| `TimeRangeSets` | timerangeset.dfy | `timerange/timerangeset.py` |
| `Calendar` | calendar.dfy | `make_breaks` in `prj.py` |
| `Tasks` | task.dfy | `task/task.py` |
| `TaskSets` | taskset.dfy | `task/taskset.py` |
| `Members` | member.dfy | `member/member.py` |
| `MemberSets` | memberset.dfy | `member/memberset.py` |

`Covered(s, t)` says that some range of `s` contains instant `t`.
`Normalized(s)` says that each range ends strictly before the next one
starts. `Points(s)` is the set of covered instants. Most contracts are
stated with these three, independently of how the code computes its result.

Three behaviours of the code are worth knowing before reading the
contracts:

- Subtracting an empty mask yields the empty set, not the original set
  (`TimeRangeSets.SubEmptyMask`).
- The repair pass is not idempotent: on some inputs a second pass changes
  the result again (`Tasks.ValidateNotIdempotent`).
- The effort estimate extrapolates from the work done whenever progress is
  positive, however small, and otherwise uses the planned total
  (`Tasks.ExpectedTotal`).
- With the calendar `make_breaks` builds, the subtraction in the task
  derivation removes no break, so every working-time total is the raw span
  length (`Tasks.NewTaskIgnoresCalendar`; see the findings at the end).

The derivation in `Tasks` takes the subtraction as a parameter
(`Tasks.Subtraction`). `AsWritten` is the program's own `-`, and the
constructor `Tasks.NewTask` uses it. `Corrected` is the set difference the
code evidently intends. A contract stated with `Kept(how, breaks, t)` holds
for both: under `AsWritten` an instant survives when some break misses it,
under `Corrected` when no break covers it.

## Model

| member | source | states |
|---|---|---|
| TimeRanges.Make | timerange/timerange.py:33-37 | a range is built exactly when start < end, with the given endpoints; otherwise the error is returned |
| TimeRanges.Duration | timerange/timerange.py:60-61 | the duration is positive and equals the number of instants the range covers |
| TimeRanges.OverlapMeansSharedInstant | timerange/timerange.py:44-45 | the overlap test holds exactly when some instant lies in both ranges |
| TimeRanges.OverlapSymmetric | timerange/timerange.py:44-45 | overlap is symmetric |
| TimeRanges.TouchingDoesNotOverlap | timerange/timerange.py:44-45 | ranges that only touch do not overlap; every range overlaps itself |
| TimeRangeSets.RangeMinusApart | timerange/timerange.py:51-52 | a - b is exactly [a] when the ranges do not overlap |
| TimeRangeSets.RangeMinusMiddle | timerange/timerange.py:53-57 | when b lies strictly inside a, a - b is the two pieces left and right of b |
| TimeRangeSets.RangeMinusLeft | timerange/timerange.py:53-57 | when b cuts off the right part of a, only the left piece remains |
| TimeRangeSets.RangeMinusRight | timerange/timerange.py:53-57 | when b cuts off the left part of a, only the right piece remains |
| TimeRangeSets.RangeMinusPieces | timerange/timerange.py:47-58 | a - b in each of the five cases, including empty when b covers a |
| TimeRangeSets.RangeMinusCover | timerange/timerange.py:47-58 | a - b covers exactly the instants of a that are outside b |
| TimeRangeSets.RangeMinusShape | timerange/timerange.py:47-58 | a - b has at most two ranges, is canonical, and each piece lies inside a and clear of b |
| TimeRangeSets.RangeMinusSound | timerange/timerange.py:47-58 | all of the above together: size, canonical form, exact coverage, pieces inside a and clear of b, no overlap gives [a], covered gives [] |
| Sorting.SortBy | timerange/timerangeset.py:52 | the result is a permutation of the input that is ordered by key |
| Sorting.SortIsStable | timerange/timerangeset.py:52 | for each key, the elements with that key keep their input order |
| Sorting.SortOfSorted | timerange/timerangeset.py:52 | sorting an already ordered sequence changes nothing |
| Sorting.SortKeepsElements | timerange/timerangeset.py:52 | sorting neither adds nor drops an element |
| Sorting.SortedHeadIsLeast | task/taskset.py:54-58 | the first sorted element comes from the input and has the least key |
| TimeRangeSets.MergeFromSound | timerange/timerangeset.py:54-64 | the merging loop covers exactly what the accumulator and the remaining ranges cover |
| TimeRangeSets.MergeFromNormalized | timerange/timerangeset.py:54-64 | when the accumulator followed by the remaining ranges is already canonical, the merging loop returns them unchanged |
| TimeRangeSets.Normalize | timerange/timerangeset.py:51-64 | the output is canonical, covers exactly what the input covers, has no more ranges, and equals a canonical input |
| TimeRangeSets.NormalizeOfNormalized | timerange/timerangeset.py:51-64 | normalizing is idempotent on canonical sets |
| TimeRangeSets.CanonicalFormUnique | timerange/timerangeset.py:51-64 | two canonical sets that cover the same instants are equal |
| TimeRangeSets.FromRanges | timerange/timerangeset.py:34-35 | the constructor yields a canonical set covering what its argument covers |
| TimeRangeSets.Add | timerange/timerangeset.py:37-38 | after add(r) the set is canonical, covers the old instants plus those of r, grows by at most one range, and appends r when it lies beyond the end |
| TimeRangeSets.AddCommutes | timerange/timerangeset.py:37-38 | adding two ranges in either order gives the same set |
| TimeRangeSets.TotalDuration | timerange/timerangeset.py:48-49 | the total is at least the number of covered instants, and equals it for a canonical set |
| TimeRangeSets.CoverBoundsTotal | timerange/timerangeset.py:48-49 | a canonical set that covers no more than another has no larger total |
| TimeRangeSets.Sub | timerange/timerangeset.py:40-46 | the result is canonical, and an instant survives exactly when self covers it and some mask range misses it |
| TimeRangeSets.SubtractEach | timerange/timerangeset.py:43-45 | the inner two loops add, for one range r, the instants of r that some mask range misses |
| TimeRangeSets.SubtractFrom | timerange/timerangeset.py:42-45 | the outer loop adds the instants of self that some mask range misses |
| TimeRangeSets.AddAll | timerange/timerangeset.py:44-45 | adding every piece adds exactly the instants they cover |
| TimeRangeSets.SubEmptyMask | timerange/timerangeset.py:40-46 | subtracting an empty mask yields the empty set |
| TimeRangeSets.SubOneRange | timerange/timerangeset.py:40-46 | with a one-range mask the result covers exactly self minus that range |
| TimeRangeSets.SubShrinks | timerange/timerangeset.py:40-49 | the result is covered by self, so its total never exceeds self's total |
| TimeRangeSets.SubIgnoresSeparatedMask | timerange/timerangeset.py:40-46 | a canonical mask of two or more ranges removes nothing: the result is self normalized |
| TimeRangeSets.SubIsNotDifference | timerange/timerangeset.py:40-46 | [0,10) minus {[2,3), [5,6)} is still [0,10), although instant 2 is masked |
| TimeRangeSets.Difference | timerange/timerangeset.py:40-46 | the corrected subtraction: canonical, it covers exactly self minus the mask, and an empty mask keeps a canonical self |
| TimeRangeSets.SubMatchesDifferenceForOneRange | timerange/timerangeset.py:40-46 | the program's subtraction and the true difference agree on one-range masks |
| Calendar.DayAround | prj.py:70-72 | the weekday test and the whole-day range of the loop refer to day d itself |
| Calendar.BreakBeforeStep | prj.py:68-76 | the breaks of days before d+1 are those before d plus those of day d |
| Calendar.DayStep | prj.py:69-72 | one pass of the loop adds exactly day d's night, lunch and, on a weekend, the whole day |
| Calendar.WorkingHoursAreFree | prj.py:58-77 | no break reaches into 09:00-12:00 or 13:00-17:00 of a weekday that is not the holiday |
| Calendar.BreakFacts | prj.py:58-77 | in the calendar, nights, lunches, weekends and the holiday are breaks, and weekday working hours are not |
| Calendar.FirstDayHasGap | prj.py:58-77 | on the first day, 08:00 and 12:00 are breaks and 10:00 is not |
| Calendar.MakeBreaks | prj.py:58-77 | the calendar is canonical; it covers each night and lunch of every day from the first date through the day after the last, every weekend day in that span, and the holiday; it leaves weekday working hours free |
| Tasks.Validate | task/task.py:94-160 | after repair the plan is ordered, an actual end implies an earlier actual start, progress is at most 100, an actual end implies 100, progress implies a start, and a start implies non-negative progress; now is unchanged |
| Tasks.ValidatePlan | task/task.py:95-108 | an ordered plan is kept; an empty plan is widened by one second; a reversed one is swapped; both repairs warn |
| Tasks.ValidateActual | task/task.py:109-144 | a lone actual end becomes the start, and is withdrawn when it is in the future with progress; an ordered pair is kept; an empty pair is widened by one second and a reversed pair swapped, both with a warning; a future end only warns; a future start without an end and with progress is cleared and progress reset to 0 |
| Tasks.ValidateProgress | task/task.py:145-158 | progress with no actual span takes the planned start as actual start, with progress capped at 100, and warns; progress above 100 warns and is capped whenever a start remains; a finished task with progress other than 100 gets 100 and warns |
| Tasks.ValidateNegativeProgress | task/task.py:159-160 | negative progress survives only on a task without an actual start, and then unchanged |
| Tasks.ValidateKeepsConsistent | task/task.py:94-160 | repair changes nothing and does not warn exactly when the fields already pass every check |
| Tasks.ValidateNotIdempotent | task/task.py:132-148 | progress without a start on a future plan gets the planned start on the first pass and loses it, with progress reset to 0, on the second |
| Tasks.WorkIn | task/task.py:56 | `span - breaks` is canonical, covers exactly the span's instants that survive the subtraction (for the program's `-`: those some break misses), and its total is the number of those instants |
| Tasks.WorkInBounded | task/task.py:56 | under either subtraction, the working time in a span is never more than the span's length |
| Tasks.WorkInMonotone | task/task.py:68-73 | under either subtraction, the elapsed part of a plan holds no more working time than the whole plan |
| Tasks.ActualWork | task/task.py:57-66 | there is actual work exactly when there is an actual end or a start before now; it is canonical, covers exactly the instants from the actual start to the actual end (or to now) that survive the subtraction, and its total is their number |
| Tasks.PlannedDone | task/task.py:68-75 | for a plan started before now, the elapsed planned work is the number of instants from the planned start to the earlier of now and the planned end that survive the subtraction; it is 0 for a plan not yet started, and never more than the planned total |
| Tasks.ExpectedTotal | task/task.py:80-84 | with positive progress, expected times progress equals 100 times the actual work done; otherwise it is the planned total |
| Tasks.Derive | task/task.py:56-84 | the task keeps the repaired fields; the planned total is the number of planned instants that survive the subtraction; planned done is the number of such instants elapsed before now (0 for a plan not yet started) and at most the planned total; the estimate follows the expected-effort rule |
| Tasks.DeriveActual | task/task.py:57-78 | there is actual working time exactly for a finished task or one started before now; it covers exactly the instants from the actual start to the actual end (or to now) that survive the subtraction, the actual total is their number, and it is 0 without actual working time |
| Tasks.DerivePlanIsWorkingTime | task/task.py:56-67 | the derived plan covers exactly the planned instants that survive the subtraction, and the planned total is their number |
| Tasks.CalendarMissesAll | prj.py:58-77 | the program's calendar has separated breaks, so under the program's `-` every instant survives |
| Tasks.WorkInIgnoresCalendar | task/task.py:56-67 | with the calendar the program builds, the program's `-` returns every span whole, so its total is the raw length |
| Tasks.NewTaskIgnoresCalendar | task/task.py:35-78 | with the program's calendar, the constructor's planned total is the raw planned length, planned done the raw elapsed part of the plan, and the actual total the raw length from actual start to actual end (or now) |
| Tasks.FirstMorningWork | task/task.py:56 | with the corrected subtraction, the working time between 09:00 and 13:00 on the first day is 09:00 to 12:00 |
| Tasks.FirstMorningPlanAsWritten | task/task.py:56-67 | the program gives a task planned 09:00-13:00 on the first day four hours of planned working time, the lunch hour included |
| Tasks.FirstMorningPlan | task/task.py:56-67 | with the corrected subtraction the same task has three hours of planned working time |
| Tasks.NewTask | task/task.py:35-84 | with the program's subtraction: the stored plan, actual span, progress and now are exactly the repaired fields and the warning flag is the repair's flag; the name is tagged with the line; the planned total is the number of planned instants some break misses, at least planned done and at most the span length |
| Tasks.IsOverlapSymmetric | task/task.py:89-92 | task overlap is symmetric, reflexive, and means a shared planned instant |
| TaskSets.Add | task/taskset.py:37-39 | add keeps the old tasks as a prefix, appends the task exactly when its name is new, and afterwards the name is present |
| TaskSets.AddKeepsNamesDistinct | task/taskset.py:37-39 | add keeps names pairwise distinct |
| TaskSets.FromAdds | task/taskset.py:37-39 | a set built by adds has distinct names, holds every added name, and holds only added tasks |
| TaskSets.MinPlanStart | task/taskset.py:54-58 | the earliest planned start is at most every task's start and is some task's start |
| TaskSets.SortedHeadIsMin | task/taskset.py:54-58 | the first task after sorting has the earliest planned start |
| TaskSets.PickResponsible | task/taskset.py:62-71 | a name is listed exactly when some task with that name is responsible, and the list is a subsequence of the sorted names |
| TaskSets.PickResponsibleExact | task/taskset.py:62-71 | when the names are distinct, the filter's result is the only subsequence of the sorted names that lists exactly the responsible ones |
| TaskSets.NamesResponsible | task/taskset.py:53-71 | an empty set gives []; a name is listed exactly when some task with that name is responsible on the base day; the list is a subsequence of the sorted names |
| TaskSets.NamesResponsibleCases | task/taskset.py:63-71 | an in-progress task is listed; an unstarted one exactly when planned to start before the base day ends; a finished one exactly when it ended at or after the base day's start |
| TaskSets.AddAppendsName | task/taskset.py:37-51 | the names list follows insertion order: adding a task with a new name appends exactly that name; adding a known name leaves the list unchanged |
| TaskSets.AddGrowsTotals | task/taskset.py:73-83 | adding a new task grows each total by that task's figure; adding a known name changes none |
| TaskSets.TotalDurations | task/taskset.py:85-95 | the one-pass loop returns the four totals |
| Members.NewMember | member/member.py:34-38 | a new member keeps the given name and role, holds no task and is not warned |
| Members.FirstTaskNoWarning | member/member.py:34-50 | the first task given to a new member is held alone and raises no warning |
| Members.OverlapsAny | member/member.py:44-49 | the warning loop fires exactly when some held task overlaps the new one |
| Members.AddTask | member/member.py:43-50 | name and role are kept, the tasks are TaskSet.add of the old ones, the flag is raised exactly when it was set or some held task overlaps, and it is never lowered |
| Members.ReAddWarns | member/member.py:44-50 | re-adding a held task warns and leaves the tasks unchanged |
| MemberSets.FindByName | member/memberset.py:52-55 | the result is none exactly when no member has the name, and otherwise the first member that has it |
| MemberSets.Add | member/memberset.py:36-38 | add keeps the old members as a prefix, appends exactly when the name is new, and afterwards the name can be found |
| MemberSets.AddKeepsNamesDistinct | member/memberset.py:36-38 | add keeps names pairwise distinct |
| MemberSets.AddKeepsFound | member/memberset.py:36-38 | a name that can be found is still found after an add |
| MemberSets.FromAdds | member/memberset.py:36-38 | a set built by adds has distinct names and finds every added name |
| MemberSets.AddAppendsName | member/memberset.py:36-50 | the names list follows insertion order: adding a new member appends exactly its name; adding a known name leaves the list unchanged |

## Left out

- Spreadsheet ingestion (`load_members`, `load_tasks`, `to_datetime` in prj.py) is reading workbook I/O. Also, `load_tasks` calls the `Task` constructor with eight arguments while it takes nine (it lacks `line`), so that driver does not run as written.
- `print_progress_details`, `main` and the console code-page call are console output and floating-point percentages.
- Every `print` in the repair pass and in `add_task` is represented only by the `wasWarned` flag.
- The Asia/Tokyo check in the `TimeRange` constructor is left out because instants are integer seconds in one zone. The calendar's instants are built without an explicit zone, which that check would refuse at run time.
- pendulum's `DateTime`/`Duration` are integer seconds. `.at(h)` is `Calendar.AtHour`. `end_of("day")` is the next day's start with a strict comparison, which agrees for whole seconds.
- `__repr__`, `__iter__`, `__len__` and `__getitem__` are plain accessors.
- `__eq__` of tasks and members is modelled by the name comparisons `Tasks.SameTask` and `Members.SameMember`. `MemberSet.add` tests the truth of the found member, and every member is truthy, so this is the same as "found".
- Tasks.PlannedDone: the program stores the elapsed-planned working time as a range set, not a duration, when the plan started before now. The model keeps that set's total duration, because summing the sets in the totals would fail.
- Tasks.ExpectedTotal: the effort estimate uses exact real division, not binary floating point.
- TaskSets.NamesResponsibleCases: the "exactly when" directions need distinct names, as a set built only by `add` has (`TaskSets.FromAdds`). Without that, the list is only known to contain some task of that name.
- TaskSets.PickResponsible: membership and the subsequence property fix the list only when names are distinct (`TaskSets.PickResponsibleExact`). With repeated names the same name can appear more than once and the contract does not say how often.
- TaskSets.NamesResponsible: as for `TaskSets.PickResponsible`, the list is fixed only for distinct names, which a set built by `add` has (`TaskSets.FromAdds`).
- Calendar.MakeBreaks: the calendar's dates and holiday are the program's fixed constants. The weekday of a day index is computed from 1970-01-01 being a Thursday.

## Findings

| source | as written | input that shows it | evidently intended | confidence | as-written member | corrected member |
|---|---|---|---|---|---|---|
| timerange/timerangeset.py:40-46 | the result is the union, over each range `r` of self and each mask range `s`, of `r - s`; an instant survives when some single mask range misses it | self `{[0, 10)}` minus mask `{[2, 3), [5, 6)}` still covers instant 2, because `[5, 6)` misses it; with the real break calendar no break is ever subtracted, so every planned total is the raw span length | remove every mask range, so an instant survives only when no mask range covers it | not executed | TimeRangeSets.SubIsNotDifference | TimeRangeSets.Difference |
| task/task.py:56-69 | the planned, elapsed-planned and actual working times are `span - breaks` with the subtraction above | a task planned 09:00-13:00 on 2025-09-16 gets four hours of planned working time, lunch included; with the program's calendar every total is the raw span length | the breaks are excluded, giving three hours | not executed | Tasks.FirstMorningPlanAsWritten | Tasks.FirstMorningPlan |

The general form of the as-written behaviour is `TimeRangeSets.SubIgnoresSeparatedMask`. The corrected `TimeRangeSets.Difference` is proved to be the set difference. It agrees with the program whenever the mask holds a single range (`TimeRangeSets.SubMatchesDifferenceForOneRange`). The task derivation is modelled under both subtractions. The constructor `Tasks.NewTask` uses the program's, and with the calendar the program builds it keeps every raw span length (`Tasks.NewTaskIgnoresCalendar`). Under the corrected one, breaks are excluded from the working times (`Tasks.FirstMorningWork`).
