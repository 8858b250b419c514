/** Time windows: minutes of the day and cyclic weekdays, shared by rules and policy. */
module Windows {

  const DAY_MINUTES := 1440

  type Minute = m: nat | m < DAY_MINUTES
  /** Sunday is 0, as in Go's `time.Weekday`. */
  type Weekday = d: nat | d < 7

  predicate CrossesMidnight(start: Minute, end: Minute) {
    start > end
  }

  /** The end minute belongs to an overnight window, but not to a same-day one. */
  predicate InWindow(start: Minute, end: Minute, m: Minute) {
    if CrossesMidnight(start, end) then m >= start || m <= end
    else m >= start && m < end
  }

  predicate Between(lo: nat, m: nat, hi: nat) {
    lo <= m < hi
  }

  function Interval(lo: nat, hi: nat): set<nat> {
    set m: nat | m < hi && Between(lo, m, hi)
  }

  lemma {:induction false} IntervalSize(lo: nat, hi: nat)
    requires lo <= hi
    ensures |Interval(lo, hi)| == hi - lo
    decreases hi
  {
    if lo < hi {
      IntervalSize(lo, hi - 1);
      assert Between(lo, hi - 1, hi);
      assert forall m: nat | m < hi - 1 :: Between(lo, m, hi - 1) == Between(lo, m, hi);
      assert Interval(lo, hi) == Interval(lo, hi - 1) + {hi - 1};
    } else {
      assert Interval(lo, hi) == {};
    }
  }

  function MinutesIn(start: Minute, end: Minute): set<nat> {
    set m: nat | m < DAY_MINUTES && InWindow(start, end, m)
  }

  /** How long a window is open each day. */
  lemma WindowLength(start: Minute, end: Minute)
    ensures |MinutesIn(start, end)| == if start <= end then end - start else DAY_MINUTES - start + end + 1
  {
    if start <= end {
      IntervalSize(start, end);
      assert forall m: Minute :: InWindow(start, end, m) == Between(start, m, end);
      assert MinutesIn(start, end) == Interval(start, end);
    } else {
      var early, late := Interval(0, end + 1), Interval(start, DAY_MINUTES);
      IntervalSize(0, end + 1);
      IntervalSize(start, DAY_MINUTES);
      assert forall m: Minute :: InWindow(start, end, m) == (Between(0, m, end + 1) || Between(start, m, DAY_MINUTES));
      assert MinutesIn(start, end) == early + late && early !! late;
    }
  }

  /** A window and its reverse cover the day and meet at exactly one minute. */
  lemma WindowAndReverse(start: Minute, end: Minute, m: Minute)
    requires start < end
    ensures InWindow(start, end, m) || InWindow(end, start, m)
    ensures InWindow(start, end, m) && InWindow(end, start, m) <==> m == start
  {
  }

  /** How many days after `a` day `d` comes: (d - a) mod 7. */
  function DaysAfter(a: Weekday, d: Weekday): nat {
    if d >= a then d - a else d + 7 - a
  }

  function NextDay(d: Weekday): Weekday {
    (d + 1) % 7
  }

  /** The weekdays less than `n` days after `a`. */
  function DaysWithin(a: Weekday, n: nat): set<nat> {
    set d: nat | d < 7 && DaysAfter(a, d) < n
  }

  /** The weekdays from `a` forward to `b`, wrapping at the end of the week. */
  function CyclicDays(a: Weekday, b: Weekday): set<nat> {
    DaysWithin(a, DaysAfter(a, b) + 1)
  }

  lemma DaysWithinNext(a: Weekday, d: Weekday)
    ensures DaysWithin(a, DaysAfter(a, d) + 1) == DaysWithin(a, DaysAfter(a, d)) + {d}
  {
  }

  /** Walks the week from `a` until it has marked `b`. */
  method MarkDays(a: Weekday, b: Weekday, marked: set<nat>) returns (days: set<nat>, steps: nat)
    ensures days == marked + CyclicDays(a, b)
    ensures steps == DaysAfter(a, b) + 1
  {
    days, steps := marked, 0;
    var i: Weekday := a;
    while true
      invariant steps == DaysAfter(a, i) <= DaysAfter(a, b)
      invariant days == marked + DaysWithin(a, steps)
      decreases 7 - steps
    {
      DaysWithinNext(a, i);
      days, steps := days + {i}, steps + 1;
      if i == b {
        break;
      }
      i := NextDay(i);
    }
  }

  lemma {:induction false} DaysWithinSize(a: Weekday, n: nat)
    requires n <= 7
    ensures |DaysWithin(a, n)| == n
  {
    if n > 0 {
      DaysWithinSize(a, n - 1);
      var d := (a + n - 1) % 7;
      assert DaysAfter(a, d) == n - 1;
      DaysWithinNext(a, d);
    } else {
      assert DaysWithin(a, n) == {};
    }
  }

  /** The weekdays strictly after `b` and before `a`. */
  function DaysBetween(b: Weekday, a: Weekday): set<nat> {
    DaysWithin(NextDay(b), DaysAfter(NextDay(b), a))
  }

  lemma NextDayAfter(a: Weekday, d: Weekday)
    ensures DaysAfter(a, NextDay(d)) == if DaysAfter(a, d) == 6 then 0 else DaysAfter(a, d) + 1
  {
    assert NextDay(d) == if d == 6 then 0 else d + 1;
  }

  lemma AfterTheNext(a: Weekday, b: Weekday, d: Weekday)
    ensures DaysAfter(a, d) > DaysAfter(a, b) <==> DaysAfter(NextDay(b), d) < DaysAfter(NextDay(b), a)
  {
    assert NextDay(b) == if b == 6 then 0 else b + 1;
  }

  /**
   * The interval runs from `a` to `b`, and the rest of the week is exactly the days strictly after `b` and before
   * `a`.
   */
  lemma CyclicDaysRun(a: Weekday, b: Weekday, d: Weekday)
    ensures |CyclicDays(a, b)| == (b - a) % 7 + 1
    ensures d in CyclicDays(a, b) <==> d !in DaysBetween(b, a)
    ensures a in CyclicDays(a, b) && b in CyclicDays(a, b)
    ensures d in CyclicDays(a, b) && d != b ==> NextDay(d) in CyclicDays(a, b)
  {
    DaysWithinSize(a, DaysAfter(a, b) + 1);
    NextDayAfter(a, d);
    AfterTheNext(a, b, d);
  }
}
