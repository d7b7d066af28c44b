/** A half-open span of time `[start, end)` with instants as integer seconds. */
module TimeRanges {
  import opened Options

  datatype Span = Span(start: int, end: int)

  /** Every range the program holds is non-empty: its constructor refuses
      `start >= end`. */
  type TimeRange = r: Span | r.start < r.end witness Span(0, 1)

  /** Why a range could not be built. */
  datatype RangeError = StartNotBeforeEnd

  function Min(a: int, b: int): int { if a <= b then a else b }
  function Max(a: int, b: int): int { if a <= b then b else a }

  /** The checked constructor. */
  function Make(start: int, end: int): (r: Result<TimeRange, RangeError>)
    ensures r.Ok? <==> start < end
    ensures r.Ok? ==> r.value.start == start && r.value.end == end
  {
    if start >= end then Err(StartNotBeforeEnd) else Ok(Span(start, end))
  }

  /** The instant `t` lies inside `r`. */
  predicate Contains(r: TimeRange, t: int) {
    r.start <= t < r.end
  }

  function StartOf(r: TimeRange): int { r.start }

  /** Two ranges share an instant; touching ends do not count. */
  predicate Overlap(a: TimeRange, b: TimeRange) {
    a.start < b.end && b.start < a.end
  }

  /** `a <= t < b` under a name, so that a set comprehension over a range
      has a term to trigger on. */
  ghost predicate Between(a: int, t: int, b: int) { a <= t < b }

  /** The instants of `[a, b)` as a set. */
  ghost function Interval(a: int, b: int): set<int> {
    set t | a <= t < b && Between(a, t, b)
  }

  /** The instants a range covers. */
  ghost function Instants(r: TimeRange): set<int> {
    Interval(r.start, r.end)
  }

  /** The length of a range in seconds, which is the number of instants it covers. */
  function Duration(r: TimeRange): (d: int)
    ensures d > 0
    ensures d == |Instants(r)|
  {
    CardInterval(r.start, r.end);
    r.end - r.start
  }

  /** The number of integers in `[a, b)`. */
  lemma {:induction false} CardInterval(a: int, b: int)
    requires a <= b
    ensures |Interval(a, b)| == b - a
    decreases b - a
  {
    if a < b {
      CardInterval(a, b - 1);
      assert Interval(a, b) == Interval(a, b - 1) + {b - 1};
    } else {
      assert Interval(a, b) == {};
    }
  }

  /** Overlap means exactly that some instant lies in both ranges. */
  lemma OverlapMeansSharedInstant(a: TimeRange, b: TimeRange)
    ensures Overlap(a, b) <==> exists t :: Contains(a, t) && Contains(b, t)
  {
    if Overlap(a, b) {
      assert Contains(a, Max(a.start, b.start)) && Contains(b, Max(a.start, b.start));
    }
  }

  lemma OverlapSymmetric(a: TimeRange, b: TimeRange)
    ensures Overlap(a, b) <==> Overlap(b, a)
  {
  }

  /** Ranges that only touch do not overlap, and a range overlaps itself. */
  lemma TouchingDoesNotOverlap(a: TimeRange, b: TimeRange)
    ensures a.end == b.start ==> !Overlap(a, b)
    ensures Overlap(a, a)
  {
  }
}
