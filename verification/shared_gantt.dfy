/**
 * The read-only timeline of a shared plan (apps/web/src/components/SharedGantt.tsx). It
 * uses the same date axis, hue and position lookup as the staff timeline; what differs is
 * the block offset (a prefix sum over the whole row), the horizon and the dimming rule.
 */
module SharedGantt {
  import opened Wrappers
  import opened Types
  import opened Calendar
  import opened Gantt

  /** `slice(0, index).reduce((sum, t) => sum + t.mandays, 0)`, folded from the front. */
  function SumFromFront(ts: seq<Task>): int {
    if ts == [] then 0 else ts[0].mandays + SumFromFront(ts[1..])
  }

  /** A block's first column in a shared row: the mandays of every task before it. */
  function StartIndex(tasks: seq<Task>, index: nat): int
    requires index <= |tasks|
  {
    SumFromFront(tasks[..index])
  }

  lemma {:induction false} SumFromFrontIsDays(ts: seq<Task>)
    ensures SumFromFront(ts) == Days(ts)
  {
    if ts != [] {
      SumFromFrontIsDays(ts[1..]);
      SumFromFrontIsDays(ts[..|ts| - 1]);
      if |ts| > 1 {
        assert ts[1..][..|ts| - 2] == ts[..|ts| - 1][1..];
        SumFromFrontIsDays(ts[..|ts| - 1][1..]);
      }
    }
  }

  lemma {:induction false} VisibleWithoutActive(tasks: seq<Task>)
    ensures Visible(tasks, None) == tasks
  {
    if tasks != [] {
      VisibleWithoutActive(tasks[..|tasks| - 1]);
      assert tasks == tasks[..|tasks| - 1] + [tasks[|tasks| - 1]];
    }
  }

  /**
   * Each shared block starts at the sum of the mandays before it in the row, so it sits
   * where the staff timeline's layout puts it when nothing is being dragged, and each
   * block starts where the previous one ends.
   */
  lemma StartIndexIsLayout(tasks: seq<Task>, index: nat)
    requires index < |tasks|
    ensures |Layout(Visible(tasks, None))| == |tasks| && StartIndex(tasks, index) == Layout(Visible(tasks, None))[index].start
    ensures StartIndex(tasks, index + 1) == StartIndex(tasks, index) + tasks[index].mandays
  {
    VisibleWithoutActive(tasks);
    LayoutCumulative(tasks);
    SumFromFrontIsDays(tasks[..index]);
    SumFromFrontIsDays(tasks[..index + 1]);
    DaysPrefixStep(tasks, index);
  }

  /** The rows of the shared view: one per staff member, with `staffTasks[s.id] ?? []`. */
  function SharedRows(staff: seq<Staff>, staffTasks: map<Id, seq<Task>>): (rows: seq<Row>)
    ensures |rows| == |staff|
    ensures forall i :: 0 <= i < |staff| ==> rows[i].staff == staff[i].id
  {
    seq(|staff|, i requires 0 <= i < |staff| =>
      Row(staff[i].id, if staff[i].id in staffTasks then staffTasks[staff[i].id] else []))
  }

  /** The `positions` memo of the shared view, over its rows. */
  method SharedPositions(staff: seq<Staff>, staffTasks: map<Id, seq<Task>>, activeId: Option<Id>)
    returns (pos: map<Id, Placement>, rowEnd: map<Id, int>)
    requires forall a, b :: 0 <= a < b < |staff| ==> staff[a].id != staff[b].id
    ensures pos == Positions(SharedRows(staff, staffTasks), activeId)
    ensures forall i :: 0 <= i < |staff| ==>
      staff[i].id in rowEnd &&
      rowEnd[staff[i].id] == Days(Visible(if staff[i].id in staffTasks then staffTasks[staff[i].id] else [], activeId))
  {
    var rows := SharedRows(staff, staffTasks);
    pos, rowEnd := ComputePositions(rows, activeId);
    forall i | 0 <= i < |staff|
      ensures staff[i].id in rowEnd &&
        rowEnd[staff[i].id] == Days(Visible(if staff[i].id in staffTasks then staffTasks[staff[i].id] else [], activeId))
    {
      RowEndsMatchLayout(rows, activeId, i);
    }
  }

  /** `Math.max(...values, 30)`. */
  function MaxWith30(values: seq<int>): (m: int)
    ensures m >= 30
    ensures forall k :: 0 <= k < |values| ==> m >= values[k]
    ensures m == 30 || exists k :: 0 <= k < |values| && m == values[k]
  {
    if values == [] then 30
    else
      var rest := MaxWith30(values[1..]);
      if values[0] > rest then values[0] else rest
  }

  /**
   * The horizon as the view computes it from the row ends. The code spreads
   * `Object.values(positions.rowEnd)`, but `rowEnd` is a `Map`, whose entries are not own
   * properties of the object, so the spread is empty whatever `rowEnds` holds.
   */
  function HorizonAsWritten(rowEnds: seq<int>): (h: int)
    ensures h == 30
  {
    var objectValues: seq<int> := [];
    var maxEnd := MaxWith30(objectValues);
    if maxEnd > 30 then maxEnd else 30
  }

  /** The intended horizon: the longest row end, and never fewer than 30 days. */
  function Horizon(rowEnds: seq<int>): (h: int)
    ensures h >= 30
    ensures forall k :: 0 <= k < |rowEnds| ==> h >= rowEnds[k]
    ensures h == 30 || exists k :: 0 <= k < |rowEnds| && h == rowEnds[k]
  {
    var maxEnd := MaxWith30(rowEnds);
    if maxEnd > 30 then maxEnd else 30
  }

  /** One staff member with a 40-day queue: the axis as written stops at day 30, inside the row. */
  lemma HorizonAsWrittenCutsRows()
    ensures var ends := [40]; HorizonAsWritten(ends) == 30 < ends[0] && Horizon(ends) == 40
  {
  }

  /** The timeline of the shared view with the intended horizon: its axis reaches the end of every row. */
  method Timeline(start: Day, skipWeekends: bool, rowEnds: seq<int>) returns (axis: seq<Day>)
    ensures IsAxisFrom(axis, start, skipWeekends)
    ensures forall k :: 0 <= k < |rowEnds| && rowEnds[k] <= AxisCap + 1 ==> |axis| >= rowEnds[k]
    ensures |axis| >= 30
  {
    var horizon := Horizon(rowEnds);
    axis := BuildAxis(start, horizon, skipWeekends);
  }

  /** `task.theme || ''`. */
  function ThemeKey(theme: Option<string>): string {
    if theme.Some? then theme.value else ""
  }

  /** `isDimmed`: some filters are set and the task's theme is not among them. */
  predicate IsDimmed(themeFilters: Option<seq<string>>, theme: Option<string>) {
    themeFilters.Some? && |themeFilters.value| > 0 && ThemeKey(theme) !in themeFilters.value
  }

  /**
   * Without filters nothing is dimmed; a task whose theme is listed is never dimmed; a
   * task without a theme is dimmed exactly when the list is non-empty and lacks ''.
   */
  lemma DimmingCases(themeFilters: Option<seq<string>>, theme: Option<string>)
    ensures themeFilters.None? || themeFilters.value == [] ==> !IsDimmed(themeFilters, theme)
    ensures theme.Some? && themeFilters.Some? && theme.value in themeFilters.value ==> !IsDimmed(themeFilters, theme)
    ensures theme.None? && themeFilters.Some? ==>
      (IsDimmed(themeFilters, theme) <==> themeFilters.value != [] && "" !in themeFilters.value)
  {
  }
}
