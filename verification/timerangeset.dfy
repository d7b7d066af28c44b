/** A set of time ranges kept as a sequence in canonical form: sorted by
    start, with every range ending strictly before the next one starts.
    Also holds the difference of two single ranges, whose result is a set. */
module TimeRangeSets {
  import opened TimeRanges
  import Sorting

  type RangeSet = seq<TimeRange>

  /** Some range of `s` holds the instant `t`. */
  ghost predicate Covered(s: RangeSet, t: int) {
    exists r :: r in s && Contains(r, t)
  }

  /** Canonical form: consecutive ranges neither overlap nor touch. */
  ghost predicate Normalized(s: RangeSet) {
    forall i | 0 <= i < |s| - 1 :: s[i].end < s[i + 1].start
  }

  /** Some range of the mask `m` misses the instant `t`. */
  ghost predicate Misses(m: RangeSet, t: int) {
    exists s :: s in m && !Contains(s, t)
  }

  lemma {:induction false} NormalizedOrdered(s: RangeSet, i: int, j: int)
    requires Normalized(s)
    requires 0 <= i < j < |s|
    ensures s[i].end < s[j].start
    decreases j - i
  {
    if j > i + 1 {
      NormalizedOrdered(s, i, j - 1);
    }
  }

  lemma CoveredAppend(a: RangeSet, b: RangeSet, t: int)
    ensures Covered(a + b, t) <==> Covered(a, t) || Covered(b, t)
  {
    if Covered(a + b, t) {
      var r :| r in a + b && Contains(r, t);
      assert r in a || r in b;
    }
    if Covered(a, t) {
      var r :| r in a && Contains(r, t);
      assert r in a + b;
    }
    if Covered(b, t) {
      var r :| r in b && Contains(r, t);
      assert r in a + b;
    }
  }

  // ---------------------------------------------------------------------------
  // Normalization: sort by start, then merge touching or overlapping runs.
  // ---------------------------------------------------------------------------

  /** One iteration of the merge loop: extend the last kept range when `r`
      starts at or before its end, otherwise keep `r` as a new range. */
  function MergeStep(acc: RangeSet, r: TimeRange): RangeSet {
    if |acc| == 0 then [r]
    else
      var last := acc[|acc| - 1];
      if last.end >= r.start then acc[..|acc| - 1] + [Span(last.start, Max(last.end, r.end))]
      else acc + [r]
  }

  function MergeFrom(acc: RangeSet, rs: RangeSet): RangeSet
    decreases |rs|
  {
    if |rs| == 0 then acc else MergeFrom(MergeStep(acc, rs[0]), rs[1..])
  }

  lemma MergeStepSound(acc: RangeSet, r: TimeRange)
    requires Normalized(acc)
    requires |acc| > 0 ==> acc[|acc| - 1].start <= r.start
    ensures var m := MergeStep(acc, r);
      && Normalized(m)
      && |m| <= |acc| + 1
      && m[|m| - 1].start <= r.start
      && (forall t :: Covered(m, t) <==> Covered(acc, t) || Contains(r, t))
  {
    var m := MergeStep(acc, r);
    if |acc| == 0 {
      forall t ensures Covered(m, t) <==> Contains(r, t) {
        if Contains(r, t) { assert r in m; }
      }
    } else {
      var last := acc[|acc| - 1];
      var pre := acc[..|acc| - 1];
      assert acc == pre + [last];
      if last.end >= r.start {
        var merged: TimeRange := Span(last.start, Max(last.end, r.end));
        assert m == pre + [merged];
        forall t ensures Covered(m, t) <==> Covered(acc, t) || Contains(r, t) {
          CoveredAppend(pre, [merged], t);
          CoveredAppend(pre, [last], t);
          assert Covered([merged], t) <==> Contains(merged, t) by {
            if Contains(merged, t) { assert merged in [merged]; }
          }
          assert Covered([last], t) <==> Contains(last, t) by {
            if Contains(last, t) { assert last in [last]; }
          }
        }
      } else {
        forall t ensures Covered(m, t) <==> Covered(acc, t) || Contains(r, t) {
          CoveredAppend(acc, [r], t);
          assert Covered([r], t) <==> Contains(r, t) by {
            if Contains(r, t) { assert r in [r]; }
          }
        }
      }
    }
  }

  lemma {:induction false} MergeFromSound(acc: RangeSet, rs: RangeSet)
    requires Normalized(acc)
    requires Sorting.SortedBy(rs, StartOf)
    requires |acc| > 0 && |rs| > 0 ==> acc[|acc| - 1].start <= rs[0].start
    ensures var m := MergeFrom(acc, rs);
      && Normalized(m)
      && |m| <= |acc| + |rs|
      && (forall t :: Covered(m, t) <==> Covered(acc, t) || Covered(rs, t))
    decreases |rs|
  {
    if |rs| > 0 {
      var next := MergeStep(acc, rs[0]);
      MergeStepSound(acc, rs[0]);
      assert |rs| > 1 ==> StartOf(rs[0]) <= StartOf(rs[1]);
      MergeFromSound(next, rs[1..]);
      assert rs == [rs[0]] + rs[1..];
      forall t ensures Covered(rs, t) <==> Contains(rs[0], t) || Covered(rs[1..], t) {
        CoveredAppend([rs[0]], rs[1..], t);
        assert Covered([rs[0]], t) <==> Contains(rs[0], t) by {
          if Contains(rs[0], t) { assert rs[0] in [rs[0]]; }
        }
      }
    }
  }

  /** Merging ranges that are already in canonical form keeps them all. */
  lemma {:induction false} MergeFromNormalized(acc: RangeSet, rs: RangeSet)
    requires Normalized(acc + rs)
    ensures MergeFrom(acc, rs) == acc + rs
    decreases |rs|
  {
    if |rs| > 0 {
      var all := acc + rs;
      if |acc| > 0 {
        assert all[|acc| - 1] == acc[|acc| - 1] && all[|acc|] == rs[0];
      }
      assert MergeStep(acc, rs[0]) == acc + [rs[0]];
      assert (acc + [rs[0]]) + rs[1..] == all;
      MergeFromNormalized(acc + [rs[0]], rs[1..]);
    }
  }

  lemma NormalizedSortedByStart(s: RangeSet)
    requires Normalized(s)
    ensures Sorting.SortedBy(s, StartOf)
  {
    forall i, j | 0 <= i < j < |s| ensures StartOf(s[i]) <= StartOf(s[j]) {
      NormalizedOrdered(s, i, j);
    }
  }

  /** Two sequences holding the same ranges cover the same instants. */
  lemma SameElementsSameCover(a: RangeSet, b: RangeSet)
    requires multiset(a) == multiset(b)
    ensures forall t :: Covered(a, t) <==> Covered(b, t)
  {
    forall x ensures x in a <==> x in b {
      assert x in a <==> x in multiset(a);
      assert x in b <==> x in multiset(b);
    }
  }

  lemma NormalizeSound(rs: RangeSet)
    ensures var r := MergeFrom([], Sorting.SortBy(rs, StartOf));
      && Normalized(r)
      && (forall t :: Covered(r, t) <==> Covered(rs, t))
      && |r| <= |rs|
  {
    var sorted := Sorting.SortBy(rs, StartOf);
    MergeFromSound([], sorted);
    SameElementsSameCover(sorted, rs);
    assert forall t :: !Covered([], t);
  }

  lemma NormalizeOfNormalized(rs: RangeSet)
    ensures Normalized(rs) ==> MergeFrom([], Sorting.SortBy(rs, StartOf)) == rs
  {
    if Normalized(rs) {
      NormalizedSortedByStart(rs);
      Sorting.SortOfSorted(rs, StartOf);
      MergeFromNormalized([], rs);
    }
  }

  /** `_normalize`: the canonical form of a list of ranges. */
  function Normalize(rs: RangeSet): (r: RangeSet)
    ensures Normalized(r)
    ensures forall t :: Covered(r, t) <==> Covered(rs, t)
    ensures |r| <= |rs|
    ensures Normalized(rs) ==> r == rs
  {
    NormalizeSound(rs);
    NormalizeOfNormalized(rs);
    MergeFrom([], Sorting.SortBy(rs, StartOf))
  }

  /** `TimeRangeSet.add`: append `r` and normalize again. */
  function Add(s: RangeSet, r: TimeRange): (res: RangeSet)
    ensures Normalized(res)
    ensures forall t :: Covered(res, t) <==> Covered(s, t) || Contains(r, t)
    ensures |res| <= |s| + 1
    ensures Normalized(s + [r]) ==> res == s + [r]
  {
    forall t ensures Covered(s + [r], t) <==> Covered(s, t) || Contains(r, t) {
      CoveredAppend(s, [r], t);
      assert Covered([r], t) <==> Contains(r, t) by {
        if Contains(r, t) { assert r in [r]; }
      }
    }
    Normalize(s + [r])
  }

  /** `TimeRangeSet(ranges)`: the constructor normalizes its argument. */
  function FromRanges(rs: RangeSet): (r: RangeSet)
    ensures Normalized(r)
    ensures forall t :: Covered(r, t) <==> Covered(rs, t)
  {
    Normalize(rs)
  }

  // ---------------------------------------------------------------------------
  // Canonical form is unique: a normalized set is determined by its coverage.
  // ---------------------------------------------------------------------------

  /** In canonical form, the instants after the first range are exactly the
      instants of the tail. */
  lemma TailCover(s: RangeSet, t: int)
    requires Normalized(s) && |s| > 0
    ensures Covered(s[1..], t) <==> Covered(s, t) && t >= s[0].end
  {
    assert s == [s[0]] + s[1..];
    CoveredAppend([s[0]], s[1..], t);
    assert Covered([s[0]], t) <==> Contains(s[0], t) by {
      if Contains(s[0], t) { assert s[0] in [s[0]]; }
    }
    if Covered(s[1..], t) {
      var r :| r in s[1..] && Contains(r, t);
      var j :| 0 <= j < |s[1..]| && s[1..][j] == r;
      NormalizedOrdered(s, 0, j + 1);
    }
  }

  lemma FirstStartIsLeast(s: RangeSet, t: int)
    requires Normalized(s) && |s| > 0 && Covered(s, t)
    ensures s[0].start <= t
  {
    var r :| r in s && Contains(r, t);
    var j :| 0 <= j < |s| && s[j] == r;
    if j > 0 { NormalizedOrdered(s, 0, j); }
  }

  lemma FirstRangeAgrees(a: RangeSet, b: RangeSet)
    requires Normalized(a) && Normalized(b) && |a| > 0 && |b| > 0
    requires forall t :: Covered(a, t) <==> Covered(b, t)
    ensures a[0] == b[0]
  {
    assert a[0] in a && Contains(a[0], a[0].start);
    assert b[0] in b && Contains(b[0], b[0].start);
    assert Covered(a, b[0].start) && Covered(b, a[0].start);
    // The first start of each side is the smallest covered instant of both.
    FirstStartIsLeast(a, b[0].start);
    FirstStartIsLeast(b, a[0].start);
    assert a[0].start == b[0].start;
    // Neither first range can end before the other: the instant just after
    // the shorter one would be covered by the longer one but fall in the gap.
    if a[0].end < b[0].end {
      assert b[0] in b && Contains(b[0], a[0].end);
      assert Covered(a, a[0].end);
      TailCover(a, a[0].end);
      FirstStartIsLeast(a[1..], a[0].end);
      NormalizedOrdered(a, 0, 1);
      assert false;
    }
    if b[0].end < a[0].end {
      assert a[0] in a && Contains(a[0], b[0].end);
      assert Covered(b, b[0].end);
      TailCover(b, b[0].end);
      FirstStartIsLeast(b[1..], b[0].end);
      NormalizedOrdered(b, 0, 1);
      assert false;
    }
  }

  /** Two sets in canonical form that cover the same instants are identical. */
  lemma {:induction false} CanonicalFormUnique(a: RangeSet, b: RangeSet)
    requires Normalized(a) && Normalized(b)
    requires forall t :: Covered(a, t) <==> Covered(b, t)
    ensures a == b
    decreases |a|
  {
    if |a| == 0 && |b| > 0 {
      assert b[0] in b && Contains(b[0], b[0].start);
      assert Covered(b, b[0].start);
      assert false;
    } else if |a| > 0 && |b| == 0 {
      assert a[0] in a && Contains(a[0], a[0].start);
      assert Covered(a, a[0].start);
      assert false;
    } else if |a| > 0 {
      FirstRangeAgrees(a, b);
      forall t ensures Covered(a[1..], t) <==> Covered(b[1..], t) {
        TailCover(a, t);
        TailCover(b, t);
      }
      CanonicalFormUnique(a[1..], b[1..]);
      assert a == [a[0]] + a[1..] && b == [b[0]] + b[1..];
    }
  }

  /** The normalized set does not depend on the order ranges were added. */
  lemma AddCommutes(s: RangeSet, x: TimeRange, y: TimeRange)
    ensures Add(Add(s, x), y) == Add(Add(s, y), x)
  {
    CanonicalFormUnique(Add(Add(s, x), y), Add(Add(s, y), x));
  }

  // ---------------------------------------------------------------------------
  // Durations and covered instants.
  // ---------------------------------------------------------------------------

  /** The instants a set covers. */
  ghost function Points(s: RangeSet): set<int> {
    if |s| == 0 then {} else Instants(s[0]) + Points(s[1..])
  }

  lemma {:induction false} PointsAreCovered(s: RangeSet, t: int)
    ensures t in Points(s) <==> Covered(s, t)
    decreases |s|
  {
    if |s| > 0 {
      PointsAreCovered(s[1..], t);
      assert s == [s[0]] + s[1..];
      CoveredAppend([s[0]], s[1..], t);
      assert Covered([s[0]], t) <==> Contains(s[0], t) by {
        if Contains(s[0], t) { assert s[0] in [s[0]]; }
      }
      assert t in Instants(s[0]) <==> Contains(s[0], t) by {
        assert t in Instants(s[0]) <==> Between(s[0].start, t, s[0].end);
      }
    }
  }

  /** In canonical form the first range shares no instant with the rest. */
  lemma HeadDisjointFromTail(s: RangeSet)
    requires Normalized(s) && |s| > 0
    ensures Instants(s[0]) !! Points(s[1..])
  {
    forall t | t in Points(s[1..]) ensures t !in Instants(s[0]) {
      PointsAreCovered(s[1..], t);
      TailCover(s, t);
    }
  }

  /** `total_duration`: the sum of the ranges' lengths. It is never below the
      number of covered instants, and equals it in canonical form. */
  function TotalDuration(s: RangeSet): (d: int)
    ensures d >= 0
    ensures |Points(s)| <= d
    ensures Normalized(s) ==> d == |Points(s)|
    decreases |s|
  {
    if |s| == 0 then 0
    else
      var rest := TotalDuration(s[1..]);
      assert Normalized(s) ==> Normalized(s[1..]);
      HeadClearOfTail(s);
      Duration(s[0]) + rest
  }

  lemma HeadClearOfTail(s: RangeSet)
    requires |s| > 0
    ensures Normalized(s) ==> Instants(s[0]) !! Points(s[1..])
  {
    if Normalized(s) { HeadDisjointFromTail(s); }
  }

  /** A set covering no more instants than a canonical one has no longer total. */
  lemma CoverBoundsTotal(small: RangeSet, big: RangeSet)
    requires Normalized(small)
    requires forall t :: Covered(small, t) ==> Covered(big, t)
    ensures TotalDuration(small) <= TotalDuration(big)
  {
    forall t | t in Points(small) ensures t in Points(big) {
      PointsAreCovered(small, t);
      PointsAreCovered(big, t);
    }
    var a, b := Points(small), Points(big);
    assert b == a + (b - a);
    assert |b| == |a| + |b - a|;
  }

  // ---------------------------------------------------------------------------
  // Difference of two ranges (`TimeRange.__sub__`).
  // ---------------------------------------------------------------------------

  /** `a - b`: `a` itself when they do not overlap, otherwise the parts of `a`
      left and right of `b` that are non-empty, each added to a fresh set. */
  function RangeMinus(a: TimeRange, b: TimeRange): RangeSet {
    if !Overlap(a, b) then Add([], a)
    else
      var left: RangeSet :=
        if a.start < b.start then Add([], Span(a.start, Min(a.end, b.start))) else [];
      if b.end < a.end then Add(left, Span(Max(a.start, b.end), a.end)) else left
  }

  lemma CoveredSingleton(r: TimeRange, t: int)
    ensures Covered([r], t) <==> Contains(r, t)
  {
    if Contains(r, t) { assert r in [r]; }
  }

  lemma CoveredPair(x: TimeRange, y: TimeRange, t: int)
    ensures Covered([x, y], t) <==> Contains(x, t) || Contains(y, t)
  {
    assert [x, y] == [x] + [y];
    CoveredAppend([x], [y], t);
    CoveredSingleton(x, t);
    CoveredSingleton(y, t);
  }

  /** Adding a range that lies beyond the end of a normalized set appends it. */
  lemma AddBeyondEnd(s: RangeSet, r: TimeRange)
    requires Normalized(s)
    requires |s| == 0 || s[|s| - 1].end < r.start
    ensures Add(s, r) == s + [r]
  {
    assert Normalized(s + [r]);
  }

  lemma RangeMinusApart(a: TimeRange, b: TimeRange)
    requires !Overlap(a, b)
    ensures RangeMinus(a, b) == [a]
  {
    AddBeyondEnd([], a);
  }

  lemma RangeMinusBothSides(a: TimeRange, b: TimeRange)
    requires Overlap(a, b) && a.start < b.start && b.end < a.end
    ensures RangeMinus(a, b) == Add(Add([], Span(a.start, b.start)), Span(b.end, a.end))
  {
  }

  lemma RangeMinusMiddle(a: TimeRange, b: TimeRange)
    requires Overlap(a, b) && a.start < b.start && b.end < a.end
    ensures RangeMinus(a, b) == [Span(a.start, b.start), Span(b.end, a.end)]
  {
    var l: TimeRange := Span(a.start, b.start);
    var rt: TimeRange := Span(b.end, a.end);
    calc {
      RangeMinus(a, b);
      == { RangeMinusBothSides(a, b); }
      Add(Add([], l), rt);
      == { AddBeyondEnd([], l); assert [] + [l] == [l]; }
      Add([l], rt);
      == { AddBeyondEnd([l], rt); }
      [l] + [rt];
    }
  }

  lemma RangeMinusLeft(a: TimeRange, b: TimeRange)
    requires Overlap(a, b) && a.start < b.start && a.end <= b.end
    ensures RangeMinus(a, b) == [Span(a.start, b.start)]
  {
    AddBeyondEnd([], Span(a.start, b.start));
  }

  lemma RangeMinusRight(a: TimeRange, b: TimeRange)
    requires Overlap(a, b) && b.start <= a.start && b.end < a.end
    ensures RangeMinus(a, b) == [Span(b.end, a.end)]
  {
    AddBeyondEnd([], Span(b.end, a.end));
  }

  /** `a - b` as an explicit list of at most two pieces. */
  lemma RangeMinusPieces(a: TimeRange, b: TimeRange)
    ensures !Overlap(a, b) ==> RangeMinus(a, b) == [a]
    ensures Overlap(a, b) && a.start < b.start && b.end < a.end
      ==> RangeMinus(a, b) == [Span(a.start, b.start), Span(b.end, a.end)]
    ensures Overlap(a, b) && a.start < b.start && a.end <= b.end
      ==> RangeMinus(a, b) == [Span(a.start, b.start)]
    ensures Overlap(a, b) && b.start <= a.start && b.end < a.end
      ==> RangeMinus(a, b) == [Span(b.end, a.end)]
    ensures Overlap(a, b) && b.start <= a.start && a.end <= b.end
      ==> RangeMinus(a, b) == []
  {
    if !Overlap(a, b) {
      RangeMinusApart(a, b);
    } else if a.start < b.start && b.end < a.end {
      RangeMinusMiddle(a, b);
    } else if a.start < b.start {
      RangeMinusLeft(a, b);
    } else if b.end < a.end {
      RangeMinusRight(a, b);
    }
  }

  lemma RangeMinusCover(a: TimeRange, b: TimeRange, t: int)
    ensures Covered(RangeMinus(a, b), t) <==> Contains(a, t) && !Contains(b, t)
  {
    RangeMinusPieces(a, b);
    if !Overlap(a, b) {
      CoveredSingleton(a, t);
    } else if a.start < b.start && b.end < a.end {
      CoveredPair(Span(a.start, b.start), Span(b.end, a.end), t);
    } else if a.start < b.start {
      CoveredSingleton(Span(a.start, b.start), t);
    } else if b.end < a.end {
      CoveredSingleton(Span(b.end, a.end), t);
    } else {
      assert !Covered([], t);
    }
  }

  lemma RangeMinusShape(a: TimeRange, b: TimeRange)
    ensures |RangeMinus(a, b)| <= 2
    ensures Normalized(RangeMinus(a, b))
    ensures forall p | p in RangeMinus(a, b) :: a.start <= p.start && p.end <= a.end && !Overlap(p, b)
  {
    RangeMinusPieces(a, b);
  }

  /** What `a - b` covers: exactly the instants of `a` outside `b`, in at most
      two pieces that lie inside `a` and clear of `b`. */
  lemma RangeMinusSound(a: TimeRange, b: TimeRange)
    ensures |RangeMinus(a, b)| <= 2
    ensures Normalized(RangeMinus(a, b))
    ensures forall t :: Covered(RangeMinus(a, b), t) <==> Contains(a, t) && !Contains(b, t)
    ensures forall p | p in RangeMinus(a, b) :: a.start <= p.start && p.end <= a.end && !Overlap(p, b)
    ensures !Overlap(a, b) ==> RangeMinus(a, b) == [a]
    ensures b.start <= a.start && a.end <= b.end ==> RangeMinus(a, b) == []
  {
    RangeMinusPieces(a, b);
    RangeMinusShape(a, b);
    forall t ensures Covered(RangeMinus(a, b), t) <==> Contains(a, t) && !Contains(b, t) {
      RangeMinusCover(a, b, t);
    }
  }

  // ---------------------------------------------------------------------------
  // Subtraction of a mask (`TimeRangeSet.__sub__`), exactly as the program
  // computes it: every piece of every `r - s` is added to one result.
  // ---------------------------------------------------------------------------

  /** The innermost loop: add each range of `rs` to `acc`. */
  function AddAll(acc: RangeSet, rs: RangeSet): (r: RangeSet)
    ensures forall t :: Covered(r, t) <==> Covered(acc, t) || Covered(rs, t)
    ensures Normalized(acc) || |rs| > 0 ==> Normalized(r)
    decreases |rs|
  {
    if |rs| == 0 then acc
    else
      var r := AddAll(Add(acc, rs[0]), rs[1..]);
      assert rs == [rs[0]] + rs[1..];
      assert forall t :: Covered(rs, t) <==> Contains(rs[0], t) || Covered(rs[1..], t) by {
        forall t ensures Covered(rs, t) <==> Contains(rs[0], t) || Covered(rs[1..], t) {
          CoveredAppend([rs[0]], rs[1..], t);
          assert Covered([rs[0]], t) <==> Contains(rs[0], t) by {
            if Contains(rs[0], t) { assert rs[0] in [rs[0]]; }
          }
        }
      }
      r
  }

  lemma MissesCons(m: RangeSet, t: int)
    requires |m| > 0
    ensures Misses(m, t) <==> !Contains(m[0], t) || Misses(m[1..], t)
  {
    assert m == [m[0]] + m[1..];
    if Misses(m, t) {
      var s :| s in m && !Contains(s, t);
      assert s == m[0] || s in m[1..];
    }
    if Misses(m[1..], t) {
      var s :| s in m[1..] && !Contains(s, t);
      assert s in m;
    }
  }

  /** The middle loop: subtract every range of the mask from `r` in turn,
      adding each remainder to `acc`. */
  function SubtractEach(acc: RangeSet, r: TimeRange, mask: RangeSet): (res: RangeSet)
    requires Normalized(acc)
    ensures Normalized(res)
    ensures forall t :: Covered(res, t) <==> Covered(acc, t) || (Contains(r, t) && Misses(mask, t))
    decreases |mask|
  {
    if |mask| == 0 then acc
    else
      var res := SubtractEach(AddAll(acc, RangeMinus(r, mask[0])), r, mask[1..]);
      RangeMinusSound(r, mask[0]);
      assert forall t :: Misses(mask, t) <==> !Contains(mask[0], t) || Misses(mask[1..], t) by {
        forall t ensures Misses(mask, t) <==> !Contains(mask[0], t) || Misses(mask[1..], t) {
          MissesCons(mask, t);
        }
      }
      res
  }

  /** The outer loop over the ranges of `s`. */
  function SubtractFrom(acc: RangeSet, s: RangeSet, mask: RangeSet): (res: RangeSet)
    requires Normalized(acc)
    ensures Normalized(res)
    ensures forall t :: Covered(res, t) <==> Covered(acc, t) || (Covered(s, t) && Misses(mask, t))
    decreases |s|
  {
    if |s| == 0 then acc
    else
      var res := SubtractFrom(SubtractEach(acc, s[0], mask), s[1..], mask);
      assert s == [s[0]] + s[1..];
      assert forall t :: Covered(s, t) <==> Contains(s[0], t) || Covered(s[1..], t) by {
        forall t ensures Covered(s, t) <==> Contains(s[0], t) || Covered(s[1..], t) {
          CoveredAppend([s[0]], s[1..], t);
          assert Covered([s[0]], t) <==> Contains(s[0], t) by {
            if Contains(s[0], t) { assert s[0] in [s[0]]; }
          }
        }
      }
      res
  }

  /** `s - mask` as the program computes it: an instant survives when `s`
      covers it and at least one range of the mask misses it. */
  function Sub(s: RangeSet, mask: RangeSet): (r: RangeSet)
    ensures Normalized(r)
    ensures forall t :: Covered(r, t) <==> Covered(s, t) && Misses(mask, t)
  {
    assert forall t :: !Covered([], t);
    SubtractFrom([], s, mask)
  }

  /** An empty mask leaves nothing (the result is empty, not `s`). */
  lemma SubEmptyMask(s: RangeSet)
    ensures Sub(s, []) == []
  {
    var r := Sub(s, []);
    if |r| > 0 {
      assert r[0] in r && Contains(r[0], r[0].start);
      assert Covered(r, r[0].start);
      assert false;
    }
  }

  /** With a one-range mask the program computes the true difference. */
  lemma SubOneRange(s: RangeSet, m: TimeRange)
    ensures forall t :: Covered(Sub(s, [m]), t) <==> Covered(s, t) && !Contains(m, t)
  {
    forall t ensures Misses([m], t) <==> !Contains(m, t) {
      if !Contains(m, t) { assert m in [m]; }
    }
  }

  /** The result of a subtraction covers nothing `s` does not, so its total
      duration never exceeds that of `s`. */
  lemma SubShrinks(s: RangeSet, mask: RangeSet)
    ensures forall t :: Covered(Sub(s, mask), t) ==> Covered(s, t)
    ensures TotalDuration(Sub(s, mask)) <= TotalDuration(s)
  {
    var r := Sub(s, mask);
    CoverBoundsTotal(r, s);
  }

  /** A mask holding two separated ranges misses every instant, so the
      program's subtraction removes nothing: the result is `s` normalized. */
  lemma SubIgnoresSeparatedMask(s: RangeSet, mask: RangeSet)
    requires Normalized(mask) && |mask| >= 2
    ensures Sub(s, mask) == Normalize(s)
    ensures TotalDuration(Sub(s, mask)) == TotalDuration(Normalize(s))
  {
    SeparatedMaskMissesAll(mask);
    CanonicalFormUnique(Sub(s, mask), Normalize(s));
  }

  /** Every instant lies outside one of two separated ranges, so a canonical
      mask of two or more ranges misses every instant. */
  lemma SeparatedMaskMissesAll(mask: RangeSet)
    requires Normalized(mask) && |mask| >= 2
    ensures forall t :: Misses(mask, t)
  {
    forall t ensures Misses(mask, t) {
      assert mask[0] in mask && mask[1] in mask;
      if Contains(mask[0], t) {
        assert !Contains(mask[1], t);
      }
    }
  }

  /** A canonical set that covers two instants but not one between them
      holds at least two ranges. */
  lemma GapNeedsTwoRanges(s: RangeSet, a: int, b: int, c: int)
    requires Normalized(s) && a < b < c
    requires Covered(s, a) && !Covered(s, b) && Covered(s, c)
    ensures |s| >= 2
  {
    if |s| == 1 {
      assert s[0] in s;
    }
  }

  /** A concrete instance: removing `[2, 3)` and `[5, 6)` from `[0, 10)`
      leaves `[0, 10)` whole, although instant 2 lies in the mask. */
  lemma SubIsNotDifference()
    ensures var whole: TimeRange, m1: TimeRange, m2: TimeRange := Span(0, 10), Span(2, 3), Span(5, 6);
      Sub([whole], [m1, m2]) == [whole] && Contains(m1, 2)
  {
    var whole: TimeRange, m1: TimeRange, m2: TimeRange := Span(0, 10), Span(2, 3), Span(5, 6);
    SubIgnoresSeparatedMask([whole], [m1, m2]);
  }

  /** Removes each mask range in turn from an accumulated canonical set. */
  function DiffFrom(acc: RangeSet, mask: RangeSet): (r: RangeSet)
    requires Normalized(acc)
    ensures Normalized(r)
    ensures forall t :: Covered(r, t) <==> Covered(acc, t) && !Covered(mask, t)
    decreases |mask|
  {
    if |mask| == 0 then acc
    else
      var next := Sub(acc, [mask[0]]);
      SubOneRange(acc, mask[0]);
      var r := DiffFrom(next, mask[1..]);
      assert mask == [mask[0]] + mask[1..];
      assert forall t :: Covered(mask, t) <==> Contains(mask[0], t) || Covered(mask[1..], t) by {
        forall t ensures Covered(mask, t) <==> Contains(mask[0], t) || Covered(mask[1..], t) {
          CoveredAppend([mask[0]], mask[1..], t);
          CoveredSingleton(mask[0], t);
        }
      }
      r
  }

  /** The set difference the subtraction is meant to compute: an instant
      survives exactly when `s` covers it and no mask range does. */
  function Difference(s: RangeSet, mask: RangeSet): (r: RangeSet)
    ensures Normalized(r)
    ensures forall t :: Covered(r, t) <==> Covered(s, t) && !Covered(mask, t)
    ensures mask == [] && Normalized(s) ==> r == s
  {
    assert forall t :: !Covered([], t);
    DiffFrom(Normalize(s), mask)
  }

  /** For a one-range mask the program's subtraction and the set difference agree. */
  lemma SubMatchesDifferenceForOneRange(s: RangeSet, m: TimeRange)
    ensures Sub(s, [m]) == Difference(s, [m])
  {
    SubOneRange(s, m);
    forall t ensures Covered([m], t) <==> Contains(m, t) {
      CoveredSingleton(m, t);
    }
    CanonicalFormUnique(Sub(s, [m]), Difference(s, [m]));
  }
}
