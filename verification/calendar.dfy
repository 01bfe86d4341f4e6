/**
 * Calendar days as integers. Day 0 is 1970-01-01, a Thursday, so the weekday number that
 * JavaScript's `getDay` reports (0 = Sunday, ..., 6 = Saturday) is (d + 4) mod 7.
 */
module Calendar {

  type Day = int

  function Weekday(d: Day): int {
    (d + 4) % 7
  }

  /** `isWeekend`: Saturday or Sunday. */
  predicate IsWeekend(d: Day) {
    Weekday(d) == 0 || Weekday(d) == 6
  }

  /** Whether a day gets a column of the date axis. */
  predicate OnAxis(d: Day, skipWeekends: bool) {
    !skipWeekends || !IsWeekend(d)
  }

  /** How many days, starting with `d`, are skipped before the next column: 2 from a Saturday, 1 from a Sunday. */
  function SkipRun(d: Day, skipWeekends: bool): nat {
    if !skipWeekends then 0
    else if Weekday(d) == 6 then 2
    else if Weekday(d) == 0 then 1
    else 0
  }

  lemma SkipRunStep(d: Day, skipWeekends: bool)
    ensures OnAxis(d, skipWeekends) ==> SkipRun(d + 1, skipWeekends) <= 2
    ensures !OnAxis(d, skipWeekends) ==> SkipRun(d, skipWeekends) >= 1 &&
                                         SkipRun(d + 1, skipWeekends) == SkipRun(d, skipWeekends) - 1
  {
    assert Weekday(d + 1) == (Weekday(d) + 1) % 7;
  }

  /**
   * `axis` holds, in increasing order, exactly the axis days from `start` up to (not
   * including) `next`.
   */
  ghost predicate AxisUpTo(axis: seq<Day>, start: Day, next: Day, skipWeekends: bool) {
    && (forall i, j :: 0 <= i < j < |axis| ==> axis[i] < axis[j])
    && (forall i :: 0 <= i < |axis| ==> start <= axis[i] < next && OnAxis(axis[i], skipWeekends))
    && (forall d :: start <= d < next && OnAxis(d, skipWeekends) ==> d in axis)
  }

  /** `axis` is the first |axis| axis days counted from `start`. */
  ghost predicate IsAxisFrom(axis: seq<Day>, start: Day, skipWeekends: bool) {
    axis == [] || AxisUpTo(axis, start, axis[|axis| - 1] + 1, skipWeekends)
  }

  lemma AxisUpToIsAxisFrom(axis: seq<Day>, start: Day, next: Day, skipWeekends: bool)
    requires AxisUpTo(axis, start, next, skipWeekends)
    ensures IsAxisFrom(axis, start, skipWeekends)
  {
    if axis != [] {
      var last := axis[|axis| - 1];
      forall i | 0 <= i < |axis|
        ensures axis[i] < last + 1
      {
        if i < |axis| - 1 {
          assert axis[i] < axis[|axis| - 1];
        }
      }
    }
  }

  /** Extending the scanned range by one day keeps `AxisUpTo`, adding the day when it is on the axis. */
  lemma AxisUpToStep(axis: seq<Day>, start: Day, cur: Day, skipWeekends: bool)
    requires start <= cur
    requires AxisUpTo(axis, start, cur, skipWeekends)
    ensures AxisUpTo(if OnAxis(cur, skipWeekends) then axis + [cur] else axis, start, cur + 1, skipWeekends)
  {
  }

  /** The axis days among the `n` days from `start`, in order. */
  function AxisDays(start: Day, n: nat, skipWeekends: bool): seq<Day> {
    if n == 0 then []
    else AxisDays(start, n - 1, skipWeekends) + (if OnAxis(start + n - 1, skipWeekends) then [start + n - 1] else [])
  }

  lemma {:induction false} AxisDaysUpTo(start: Day, n: nat, skipWeekends: bool)
    ensures AxisUpTo(AxisDays(start, n, skipWeekends), start, start + n, skipWeekends)
  {
    if n > 0 {
      var prev := AxisDays(start, n - 1, skipWeekends);
      var d := start + n - 1;
      assert AxisDays(start, n, skipWeekends) == if OnAxis(d, skipWeekends) then prev + [d] else prev;
      AxisDaysUpTo(start, n - 1, skipWeekends);
      AxisUpToStep(prev, start, d, skipWeekends);
    }
  }

  /** `AxisDays` lists the first axis days from `start`: increasing, on the axis, none skipped. */
  lemma AxisDaysIsAxisFrom(start: Day, n: nat, skipWeekends: bool)
    ensures IsAxisFrom(AxisDays(start, n, skipWeekends), start, skipWeekends)
  {
    AxisDaysUpTo(start, n, skipWeekends);
    AxisUpToIsAxisFrom(AxisDays(start, n, skipWeekends), start, start + n, skipWeekends);
  }

  /** Each axis day counts once: the axis grows by one exactly when the next day is on it. */
  lemma AxisDaysLength(start: Day, n: nat, skipWeekends: bool)
    ensures |AxisDays(start, n + 1, skipWeekends)| == |AxisDays(start, n, skipWeekends)| + (if OnAxis(start + n, skipWeekends) then 1 else 0)
  {
  }

  /** The same weekday comes back every seven days. */
  lemma WeekdayPeriodic(d: Day)
    ensures Weekday(d + 7) == Weekday(d)
  {
  }

  /** The day after a Saturday (6) is a Sunday (0); otherwise the weekday number goes up by one. */
  lemma WeekdayNext(d: Day)
    ensures 0 <= Weekday(d) < 7
    ensures Weekday(d + 1) == if Weekday(d) == 6 then 0 else Weekday(d) + 1
  {
    assert Weekday(d + 1) == (Weekday(d) + 1) % 7;
  }

  /** Any seven consecutive days hold exactly five weekdays. */
  lemma FirstWeek(start: Day)
    ensures |AxisDays(start, 7, true)| == 5
  {
    FiveWeekdays(start);
    AxisDaysLength(start, 0, true);
    AxisDaysLength(start, 1, true);
    AxisDaysLength(start, 2, true);
    AxisDaysLength(start, 3, true);
    AxisDaysLength(start, 4, true);
    AxisDaysLength(start, 5, true);
    AxisDaysLength(start, 6, true);
  }

  function Ind(b: bool): nat {
    if b then 1 else 0
  }

  /** Of seven consecutive days, five are weekdays. */
  lemma FiveWeekdays(start: Day)
    ensures Ind(OnAxis(start, true)) + Ind(OnAxis(start + 1, true)) + Ind(OnAxis(start + 2, true)) +
            Ind(OnAxis(start + 3, true)) + Ind(OnAxis(start + 4, true)) + Ind(OnAxis(start + 5, true)) +
            Ind(OnAxis(start + 6, true)) == 5
  {
    WeekdayNext(start);
    WeekdayNext(start + 1);
    WeekdayNext(start + 2);
    WeekdayNext(start + 3);
    WeekdayNext(start + 4);
    WeekdayNext(start + 5);
  }

  /** Seven more calendar days add exactly five axis days when weekends are skipped, seven when not. */
  lemma {:induction false} AxisDaysWeek(start: Day, n: nat, skipWeekends: bool)
    ensures |AxisDays(start, n + 7, skipWeekends)| == |AxisDays(start, n, skipWeekends)| + (if skipWeekends then 5 else 7)
  {
    if !skipWeekends {
      AxisDaysLength(start, n, false);
      AxisDaysLength(start, n + 1, false);
      AxisDaysLength(start, n + 2, false);
      AxisDaysLength(start, n + 3, false);
      AxisDaysLength(start, n + 4, false);
      AxisDaysLength(start, n + 5, false);
      AxisDaysLength(start, n + 6, false);
    } else if n == 0 {
      FirstWeek(start);
    } else {
      AxisDaysWeek(start, n - 1, true);
      AxisDaysLength(start, n - 1, true);
      AxisDaysLength(start, n + 6, true);
      WeekdayPeriodic(start + n - 1);
    }
  }

  /** Scanning more days never shortens the axis. */
  lemma {:induction false} AxisDaysGrow(start: Day, n: nat, m: nat, skipWeekends: bool)
    requires n <= m
    ensures |AxisDays(start, n, skipWeekends)| <= |AxisDays(start, m, skipWeekends)|
    decreases m - n
  {
    if n < m {
      AxisDaysGrow(start, n, m - 1, skipWeekends);
      AxisDaysLength(start, m - 1, skipWeekends);
    }
  }

  /** `n` calendar days hold at least five axis days per whole week, and exactly `n` when weekends are kept. */
  lemma {:induction false} AxisDaysAtLeast(start: Day, n: nat, skipWeekends: bool)
    ensures |AxisDays(start, n, skipWeekends)| >= (n / 7) * 5
    ensures !skipWeekends ==> |AxisDays(start, n, skipWeekends)| == n
    decreases n
  {
    if !skipWeekends {
      if n > 0 {
        AxisDaysAtLeast(start, n - 1, false);
        AxisDaysLength(start, n - 1, false);
      }
    } else if n >= 7 {
      AxisDaysAtLeast(start, n - 7, true);
      AxisDaysWeek(start, n - 7, true);
      assert n / 7 == (n - 7) / 7 + 1;
    }
  }
}
