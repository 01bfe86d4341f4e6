/**
 * The staff timeline of the web client (apps/web/src/components/Gantt.tsx): the date
 * axis, the cumulative layout of each row, the position lookup behind the drop hint,
 * the edge test, the horizon and the short row label used on narrow screens.
 */
module Gantt {
  import opened Wrappers
  import opened Calendar
  import opened Types
  import Text

  /** `buildAxis` stops once it holds more than this many days. */
  const AxisCap := 5000

  /** `buildAxis`: the first `count` axis days from `start`, but never more than 5001. */
  method BuildAxis(start: Day, count: int, skipWeekends: bool) returns (axis: seq<Day>)
    ensures |axis| == if count <= 0 then 0 else if count <= AxisCap + 1 then count else AxisCap + 1
    ensures IsAxisFrom(axis, start, skipWeekends)
  {
    axis := [];
    var cur := start;
    while |axis| < count
      invariant start <= cur
      invariant axis == AxisDays(start, cur - start, skipWeekends)
      invariant |axis| <= AxisCap
      invariant |axis| <= count || count <= 0
      invariant count <= 0 ==> axis == []
      decreases 3 * (AxisCap - |axis|) + SkipRun(cur, skipWeekends)
    {
      SkipRunStep(cur, skipWeekends);
      if OnAxis(cur, skipWeekends) {
        axis := axis + [cur];
      }
      cur := cur + 1;
      if |axis| > AxisCap {
        break;
      }
    }
    AxisDaysIsAxisFrom(start, cur - start, skipWeekends);
  }

  /** The task being dragged (`activeId && t.id === activeId`); an empty id marks nothing. */
  predicate IsActive(activeId: Option<Id>, id: Id) {
    activeId.Some? && activeId.value != "" && id == activeId.value
  }

  /** The tasks of a row that are drawn: every one but the dragged task, in order. */
  function Visible(tasks: seq<Task>, activeId: Option<Id>): (v: seq<Task>)
    ensures |v| <= |tasks|
  {
    if tasks == [] then []
    else
      var prefix := tasks[..|tasks| - 1];
      var t := tasks[|tasks| - 1];
      if IsActive(activeId, t.id) then Visible(prefix, activeId) else Visible(prefix, activeId) + [t]
  }

  lemma VisibleStep(tasks: seq<Task>, activeId: Option<Id>, j: nat)
    requires j < |tasks|
    ensures Visible(tasks[..j + 1], activeId) ==
      if IsActive(activeId, tasks[j].id) then Visible(tasks[..j], activeId) else Visible(tasks[..j], activeId) + [tasks[j]]
  {
    assert tasks[..j + 1][..j] == tasks[..j];
  }

  /** The drawn tasks are exactly the row's tasks other than the dragged one. */
  lemma {:induction false} VisibleMembers(tasks: seq<Task>, activeId: Option<Id>)
    ensures forall t :: t in Visible(tasks, activeId) <==> t in tasks && !IsActive(activeId, t.id)
  {
    if tasks != [] {
      var prefix := tasks[..|tasks| - 1];
      assert tasks == prefix + [tasks[|tasks| - 1]];
      VisibleMembers(prefix, activeId);
    }
  }

  /** Total mandays of a sequence of tasks. */
  function Days(tasks: seq<Task>): int {
    if tasks == [] then 0 else Days(tasks[..|tasks| - 1]) + tasks[|tasks| - 1].mandays
  }

  lemma DaysPrefixStep(v: seq<Task>, k: nat)
    requires k < |v|
    ensures Days(v[..k + 1]) == Days(v[..k]) + v[k].mandays
  {
    assert v[..k + 1][..k] == v[..k];
  }

  lemma {:induction false} PrefixDaysMonotone(v: seq<Task>, i: nat, j: nat)
    requires forall t :: t in v ==> t.mandays >= 0
    requires i <= j <= |v|
    ensures Days(v[..i]) <= Days(v[..j])
  {
    if i < j {
      DaysPrefixStep(v, j - 1);
      PrefixDaysMonotone(v, i, j - 1);
    }
  }

  /** One drawn block of a row, in day columns: it covers [start, end). */
  datatype Block = Block(id: Id, start: int, end: int)

  /** The blocks of the drawn tasks `v`, each starting where the previous one ends. */
  function Layout(v: seq<Task>): seq<Block> {
    if v == [] then []
    else
      var prefix := v[..|v| - 1];
      var t := v[|v| - 1];
      Layout(prefix) + [Block(t.id, Days(prefix), Days(prefix) + t.mandays)]
  }

  lemma LayoutStep(v: seq<Task>, t: Task)
    ensures Layout(v + [t]) == Layout(v) + [Block(t.id, Days(v), Days(v) + t.mandays)]
    ensures Days(v + [t]) == Days(v) + t.mandays
  {
    assert (v + [t])[..|v|] == v;
  }

  /** The cursor's step over a drawn task `t`: one more block, starting at the cursor. */
  lemma LayoutAdvance(drawn: seq<Task>, t: Task, blocks: seq<Block>, cursor: int)
    requires blocks == Layout(drawn) && cursor == Days(drawn)
    ensures blocks + [Block(t.id, cursor, cursor + t.mandays)] == Layout(drawn + [t])
    ensures cursor + t.mandays == Days(drawn + [t])
  {
    LayoutStep(drawn, t);
  }

  /** The block layout of `GanttRow`: a cursor advanced by each drawn task's mandays. */
  method LayoutRow(tasks: seq<Task>, activeId: Option<Id>) returns (blocks: seq<Block>)
    ensures blocks == Layout(Visible(tasks, activeId))
  {
    blocks := [];
    var cursor := 0;
    ghost var drawn: seq<Task> := [];
    for j := 0 to |tasks|
      invariant drawn == Visible(tasks[..j], activeId)
      invariant blocks == Layout(drawn)
      invariant cursor == Days(drawn)
    {
      VisibleStep(tasks, activeId, j);
      var t := tasks[j];
      if !IsActive(activeId, t.id) {
        LayoutAdvance(drawn, t, blocks, cursor);
        var start := cursor;
        cursor := cursor + t.mandays;
        blocks := blocks + [Block(t.id, start, start + t.mandays)];
        drawn := drawn + [t];
      }
    }
    assert tasks[..|tasks|] == tasks;
  }

  /**
   * Each drawn block starts at the sum of the mandays of the drawn tasks before it and is
   * as wide as its own task's mandays.
   */
  lemma {:induction false} LayoutCumulative(v: seq<Task>)
    ensures |Layout(v)| == |v|
    ensures forall k :: 0 <= k < |v| ==> Layout(v)[k] == Block(v[k].id, Days(v[..k]), Days(v[..k]) + v[k].mandays)
  {
    if v != [] {
      var prefix := v[..|v| - 1];
      LayoutCumulative(prefix);
      forall k | 0 <= k < |v|
        ensures Layout(v)[k] == Block(v[k].id, Days(v[..k]), Days(v[..k]) + v[k].mandays)
      {
        if k < |v| - 1 {
          assert prefix[..k] == v[..k];
        }
      }
    }
  }

  lemma BlockBounds(v: seq<Task>)
    ensures |Layout(v)| == |v|
    ensures forall k :: 0 <= k < |v| ==> Layout(v)[k].start == Days(v[..k]) && Layout(v)[k].end == Days(v[..k + 1])
  {
    LayoutCumulative(v);
    forall k | 0 <= k < |v|
      ensures Layout(v)[k].end == Days(v[..k + 1])
    {
      DaysPrefixStep(v, k);
    }
  }

  /**
   * The drawn blocks tile the row: the first starts at column 0, each ends where the next
   * begins, and the last ends at the drawn total.
   */
  lemma RowBlocksContiguous(v: seq<Task>)
    ensures |Layout(v)| == |v|
    ensures |v| > 0 ==> Layout(v)[0].start == 0 && Layout(v)[|v| - 1].end == Days(v)
    ensures forall k :: 0 <= k < |v| - 1 ==> Layout(v)[k].end == Layout(v)[k + 1].start
  {
    BlockBounds(v);
    assert v[..|v|] == v;
  }

  /** With non-negative mandays no two drawn blocks of a row overlap. */
  lemma RowBlocksDisjoint(v: seq<Task>)
    requires forall t :: t in v ==> t.mandays >= 0
    ensures forall k, l :: 0 <= k < l < |Layout(v)| ==> Layout(v)[k].end <= Layout(v)[l].start
  {
    BlockBounds(v);
    forall k, l | 0 <= k < l < |v|
      ensures Layout(v)[k].end <= Layout(v)[l].start
    {
      PrefixDaysMonotone(v, k + 1, l);
    }
  }

  /** Where a drawn task sits: its row and its columns. */
  datatype Placement = Placement(staff: Id, start: int, end: int)

  /** A staff member's row: the id and the tasks of their queue, in queue order. */
  datatype Row = Row(staff: Id, tasks: seq<Task>)

  /** `pos` after one row's `forEach`: each drawn task's entry written in order over `pos`. */
  function Place(pos: map<Id, Placement>, staff: Id, v: seq<Task>): map<Id, Placement> {
    if v == [] then pos
    else
      var prefix := v[..|v| - 1];
      var t := v[|v| - 1];
      Place(pos, staff, prefix)[t.id := Placement(staff, Days(prefix), Days(prefix) + t.mandays)]
  }

  lemma PlaceStep(pos: map<Id, Placement>, staff: Id, v: seq<Task>, t: Task)
    ensures Place(pos, staff, v + [t]) == Place(pos, staff, v)[t.id := Placement(staff, Days(v), Days(v) + t.mandays)]
  {
    assert (v + [t])[..|v|] == v;
  }

  /** `positions.pos`: the rows written in row order; a later row overwrites an earlier one's entries. */
  function Positions(rows: seq<Row>, activeId: Option<Id>): map<Id, Placement> {
    if rows == [] then map[]
    else
      var last := rows[|rows| - 1];
      Place(Positions(rows[..|rows| - 1], activeId), last.staff, Visible(last.tasks, activeId))
  }

  /** `positions.rowEnd`: each row's drawn total, keyed by staff id. */
  function RowEnds(rows: seq<Row>, activeId: Option<Id>): map<Id, int> {
    if rows == [] then map[]
    else
      var last := rows[|rows| - 1];
      RowEnds(rows[..|rows| - 1], activeId)[last.staff := Days(Visible(last.tasks, activeId))]
  }

  lemma PositionsStep(rows: seq<Row>, activeId: Option<Id>, i: nat)
    requires i < |rows|
    ensures Positions(rows[..i + 1], activeId) ==
      Place(Positions(rows[..i], activeId), rows[i].staff, Visible(rows[i].tasks, activeId))
    ensures RowEnds(rows[..i + 1], activeId) ==
      RowEnds(rows[..i], activeId)[rows[i].staff := Days(Visible(rows[i].tasks, activeId))]
  {
    assert rows[..i + 1][..i] == rows[..i];
  }

  /** The cursor's step over a drawn task `t`: one more entry, starting at the cursor. */
  lemma PlaceAdvance(pos0: map<Id, Placement>, staff: Id, drawn: seq<Task>, t: Task, pos: map<Id, Placement>, cursor: int)
    requires pos == Place(pos0, staff, drawn) && cursor == Days(drawn)
    ensures pos[t.id := Placement(staff, cursor, cursor + t.mandays)] == Place(pos0, staff, drawn + [t])
    ensures cursor + t.mandays == Days(drawn + [t])
  {
    LayoutStep(drawn, t);
    PlaceStep(pos0, staff, drawn, t);
  }

  /** The body of the `forEach` over one staff member's tasks: a cursor, one entry per drawn task. */
  method PlaceRow(pos0: map<Id, Placement>, staff: Id, tasks: seq<Task>, activeId: Option<Id>)
    returns (pos: map<Id, Placement>, cursor: int)
    ensures pos == Place(pos0, staff, Visible(tasks, activeId))
    ensures cursor == Days(Visible(tasks, activeId))
  {
    pos := pos0;
    cursor := 0;
    ghost var drawn: seq<Task> := [];
    for j := 0 to |tasks|
      invariant drawn == Visible(tasks[..j], activeId)
      invariant pos == Place(pos0, staff, drawn)
      invariant cursor == Days(drawn)
    {
      VisibleStep(tasks, activeId, j);
      var t := tasks[j];
      if !IsActive(activeId, t.id) {
        PlaceAdvance(pos0, staff, drawn, t, pos, cursor);
        pos := pos[t.id := Placement(staff, cursor, cursor + t.mandays)];
        cursor := cursor + t.mandays;
        drawn := drawn + [t];
      }
    }
    assert tasks[..|tasks|] == tasks;
  }

  /** The `positions` memo: one pass over the rows, filling the two maps. */
  method ComputePositions(rows: seq<Row>, activeId: Option<Id>) returns (pos: map<Id, Placement>, rowEnd: map<Id, int>)
    ensures pos == Positions(rows, activeId)
    ensures rowEnd == RowEnds(rows, activeId)
  {
    pos := map[];
    rowEnd := map[];
    for i := 0 to |rows|
      invariant pos == Positions(rows[..i], activeId)
      invariant rowEnd == RowEnds(rows[..i], activeId)
    {
      PositionsStep(rows, activeId, i);
      var cursor;
      pos, cursor := PlaceRow(pos, rows[i].staff, rows[i].tasks, activeId);
      rowEnd := rowEnd[rows[i].staff := cursor];
    }
    assert rows[..|rows|] == rows;
  }

  function Ids(ts: seq<Task>): set<Id> {
    set t | t in ts :: t.id
  }

  predicate DistinctIds(ts: seq<Task>) {
    forall k, l :: 0 <= k < l < |ts| ==> ts[k].id != ts[l].id
  }

  /** No task id occurs twice on the board and no staff member has two rows. */
  ghost predicate WellFormedRows(rows: seq<Row>) {
    && (forall i :: 0 <= i < |rows| ==> DistinctIds(rows[i].tasks))
    && (forall i, j :: 0 <= i < j < |rows| ==> Ids(rows[i].tasks) !! Ids(rows[j].tasks))
    && (forall i, j :: 0 <= i < j < |rows| ==> rows[i].staff != rows[j].staff)
  }

  lemma {:induction false} VisibleDistinct(tasks: seq<Task>, activeId: Option<Id>)
    requires DistinctIds(tasks)
    ensures DistinctIds(Visible(tasks, activeId))
  {
    if tasks != [] {
      var prefix := tasks[..|tasks| - 1];
      var t := tasks[|tasks| - 1];
      VisibleDistinct(prefix, activeId);
      VisibleMembers(prefix, activeId);
      var v := Visible(prefix, activeId);
      forall k | 0 <= k < |v|
        ensures v[k].id != t.id
      {
        assert v[k] in prefix;
      }
    }
  }

  /** Writing a row leaves every id outside the row as it was. */
  lemma {:induction false} PlaceOutside(pos: map<Id, Placement>, staff: Id, v: seq<Task>, id: Id)
    requires id !in Ids(v)
    ensures id in Place(pos, staff, v) <==> id in pos
    ensures id in pos ==> Place(pos, staff, v)[id] == pos[id]
  {
    if v != [] {
      var prefix := v[..|v| - 1];
      assert v == prefix + [v[|v| - 1]];
      assert Ids(prefix) <= Ids(v);
      PlaceOutside(pos, staff, prefix, id);
    }
  }

  lemma {:induction false} PlaceAt(pos: map<Id, Placement>, staff: Id, v: seq<Task>, k: nat)
    requires DistinctIds(v)
    requires k < |v|
    ensures v[k].id in Place(pos, staff, v)
    ensures Place(pos, staff, v)[v[k].id] == Placement(staff, Days(v[..k]), Days(v[..k]) + v[k].mandays)
  {
    var prefix := v[..|v| - 1];
    if k < |v| - 1 {
      assert prefix[..k] == v[..k];
      PlaceAt(pos, staff, prefix, k);
    }
  }

  /**
   * With distinct ids, the lookup holds, for every drawn task, exactly the columns its row
   * layout gives it.
   */
  lemma {:induction false} PositionsMatchLayout(rows: seq<Row>, activeId: Option<Id>, i: nat, k: nat)
    requires WellFormedRows(rows)
    requires i < |rows| && k < |Visible(rows[i].tasks, activeId)|
    ensures var v := Visible(rows[i].tasks, activeId);
      v[k].id in Positions(rows, activeId) &&
      Positions(rows, activeId)[v[k].id] == Placement(rows[i].staff, Days(v[..k]), Days(v[..k]) + v[k].mandays)
  {
    var v := Visible(rows[i].tasks, activeId);
    var last := rows[|rows| - 1];
    var prefix := rows[..|rows| - 1];
    if i == |rows| - 1 {
      VisibleDistinct(rows[i].tasks, activeId);
      PlaceAt(Positions(prefix, activeId), rows[i].staff, v, k);
    } else {
      assert prefix[i] == rows[i];
      PositionsMatchLayout(prefix, activeId, i, k);
      VisibleMembers(last.tasks, activeId);
      VisibleMembers(rows[i].tasks, activeId);
      assert v[k] in rows[i].tasks;
      assert v[k].id in Ids(rows[i].tasks);
      assert v[k].id !in Ids(last.tasks);
      assert v[k].id !in Ids(Visible(last.tasks, activeId));
      PlaceOutside(Positions(prefix, activeId), last.staff, Visible(last.tasks, activeId), v[k].id);
    }
  }

  /** With distinct staff ids, each row's end is its drawn total. */
  lemma {:induction false} RowEndsMatchLayout(rows: seq<Row>, activeId: Option<Id>, i: nat)
    requires forall a, b :: 0 <= a < b < |rows| ==> rows[a].staff != rows[b].staff
    requires i < |rows|
    ensures rows[i].staff in RowEnds(rows, activeId)
    ensures RowEnds(rows, activeId)[rows[i].staff] == Days(Visible(rows[i].tasks, activeId))
  {
    if i < |rows| - 1 {
      var prefix := rows[..|rows| - 1];
      assert prefix[i] == rows[i];
      RowEndsMatchLayout(prefix, activeId, i);
    }
  }

  /** A drop hint: a row and the day column where the dragged task would land. */
  datatype Hint = Hint(staff: Id, index: int)

  /** `onDragOver`: the hint for the hovered droppable id. */
  function DragHint(overId: Option<Id>, pos: map<Id, Placement>, rowEnd: map<Id, int>): (h: Option<Hint>)
    ensures h.Some? ==> overId.Some? && (Text.StartsWith(overId.value, "gblock:") || Text.StartsWith(overId.value, "gantt:"))
    ensures h.Some? && Text.StartsWith(overId.value, "gblock:") ==>
      exists tid :: tid in pos && h.value == Hint(pos[tid].staff, pos[tid].start)
  {
    if overId.None? || overId.value == "" then None
    else if Text.StartsWith(overId.value, "gblock:") then
      assert overId.value[6] == "gblock:"[6];
      var tid := Text.SecondField(overId.value, ':').value;
      if tid in pos then Some(Hint(pos[tid].staff, pos[tid].start)) else None
    else if Text.StartsWith(overId.value, "gantt:") then
      assert overId.value[5] == "gantt:"[5];
      var staff := Text.SecondField(overId.value, ':').value;
      Some(Hint(staff, if staff in rowEnd then rowEnd[staff] else 0))
    else None
  }

  /** Hovering a drawn block hints at that block's first column in its own row. */
  lemma HintOverBlock(rows: seq<Row>, activeId: Option<Id>, i: nat, k: nat)
    requires WellFormedRows(rows)
    requires i < |rows| && k < |Visible(rows[i].tasks, activeId)|
    requires ':' !in Visible(rows[i].tasks, activeId)[k].id
    ensures var v := Visible(rows[i].tasks, activeId);
      DragHint(Some("gblock:" + v[k].id), Positions(rows, activeId), RowEnds(rows, activeId)) ==
        Some(Hint(rows[i].staff, Days(v[..k])))
  {
    var v := Visible(rows[i].tasks, activeId);
    PositionsMatchLayout(rows, activeId, i, k);
    HintOverTagged(v[k].id, Positions(rows, activeId), RowEnds(rows, activeId));
  }

  /** Hovering `gblock:<id>` hints at the placement of task `<id>`, when it has one. */
  lemma HintOverTagged(id: Id, pos: map<Id, Placement>, rowEnd: map<Id, int>)
    requires ':' !in id
    ensures DragHint(Some("gblock:" + id), pos, rowEnd) ==
      if id in pos then Some(Hint(pos[id].staff, pos[id].start)) else None
  {
    Text.SecondFieldOfTagged("gblock", ':', id);
    assert "gblock:" + id == "gblock" + [':'] + id;
  }

  /** Hovering a row hints at the column after its last drawn block; an unknown row gives column 0. */
  lemma HintOverRow(rows: seq<Row>, activeId: Option<Id>, staff: Id)
    requires forall a, b :: 0 <= a < b < |rows| ==> rows[a].staff != rows[b].staff
    requires ':' !in staff
    ensures forall i :: 0 <= i < |rows| && rows[i].staff == staff ==>
      DragHint(Some("gantt:" + staff), Positions(rows, activeId), RowEnds(rows, activeId)) ==
        Some(Hint(staff, Days(Visible(rows[i].tasks, activeId))))
    ensures staff !in RowEnds(rows, activeId) ==>
      DragHint(Some("gantt:" + staff), Positions(rows, activeId), RowEnds(rows, activeId)) == Some(Hint(staff, 0))
  {
    Text.SecondFieldOfTagged("gantt", ':', staff);
    assert "gantt:" + staff == "gantt" + [':'] + staff;
    assert !Text.StartsWith("gantt:" + staff, "gblock:") by {
      assert ("gantt:" + staff)[1] == 'a';
    }
    forall i | 0 <= i < |rows| && rows[i].staff == staff
      ensures DragHint(Some("gantt:" + staff), Positions(rows, activeId), RowEnds(rows, activeId)) ==
        Some(Hint(staff, Days(Visible(rows[i].tasks, activeId))))
    {
      RowEndsMatchLayout(rows, activeId, i);
    }
  }

  /** Distance in pixels from a block edge within which the pointer counts as on the edge. */
  const EdgeNear: real := 10.0

  /** `onMove`: the block start near the left edge, else the block end near the right edge, else nothing. */
  function EdgeHover(x: real, width: real, staff: Id, start: int, end: int): (r: Option<Hint>)
    ensures x <= EdgeNear ==> r == Some(Hint(staff, start))
    ensures EdgeNear < x && width - EdgeNear <= x ==> r == Some(Hint(staff, end))
    ensures r.None? <==> EdgeNear < x < width - EdgeNear
  {
    if x <= EdgeNear then Some(Hint(staff, start))
    else if x >= width - EdgeNear then Some(Hint(staff, end))
    else None
  }

  /** A block at most 20 pixels wide has no middle zone: every pointer position reports an edge. */
  lemma NarrowBlockAlwaysEdge(x: real, width: real, staff: Id, start: int, end: int)
    requires width <= 2.0 * EdgeNear
    ensures EdgeHover(x, width, staff, start, end).Some?
  {
  }

  /** `horizon`: at least 30 days, and five days beyond the longest queue. */
  method Horizon(rows: seq<seq<Task>>) returns (h: int)
    ensures h >= 30
    ensures forall i :: 0 <= i < |rows| ==> h >= Days(rows[i]) + 5
    ensures h == 30 || exists i :: 0 <= i < |rows| && h == Days(rows[i]) + 5
  {
    h := 30;
    for i := 0 to |rows|
      invariant h >= 30
      invariant forall a :: 0 <= a < i ==> h >= Days(rows[a]) + 5
      invariant h == 30 || exists a :: 0 <= a < i && h == Days(rows[a]) + 5
    {
      var sum := 0;
      for j := 0 to |rows[i]|
        invariant sum == Days(rows[i][..j])
      {
        assert rows[i][..j + 1][..j] == rows[i][..j];
        sum := sum + rows[i][j].mandays;
      }
      assert rows[i][..|rows[i]|] == rows[i];
      if sum + 5 > h {
        h := sum + 5;
      }
    }
  }

  /** The first characters of the words, upper-cased (ASCII letters only): one per word, none in lower case. */
  function Initials(words: seq<string>): (r: string)
    requires forall k :: 0 <= k < |words| ==> words[k] != []
    ensures |r| == |words|
    ensures forall k :: 0 <= k < |words| ==> r[k] == Text.ToUpperChar(words[k][0])
    ensures forall k :: 0 <= k < |r| ==> !('a' <= r[k] <= 'z')
    ensures forall k :: 0 <= k < |words| ==> Text.EqualIgnoringCase(r[k], words[k][0])
  {
    seq(|words|, k requires 0 <= k < |words| => Text.ToUpperChar(words[k][0]))
  }

  /** `truncateNameForMobile`: a row label of at most six characters. */
  function TruncateNameForMobile(name: string): (r: string)
    ensures |r| <= 6
    ensures |name| <= 6 ==> r == name
    ensures |name| > 6 && 1 < |Text.Words(name)| <= 4 ==> r == Initials(Text.Words(name))
    ensures |name| > 6 && !(1 < |Text.Words(name)| <= 4) ==> r == name[..6]
  {
    if |name| <= 6 then name
    else
      var words := Text.Words(name);
      if |words| > 1 && |Initials(words)| <= 4 then Initials(words) else name[..6]
  }

  /** A long name of two words separated by a space is shown as their two upper-cased first letters. */
  lemma TruncateTwoWords(a: string, b: string)
    requires a != [] && forall k :: 0 <= k < |a| ==> !Text.IsSpace(a[k])
    requires b != [] && forall k :: 0 <= k < |b| ==> !Text.IsSpace(b[k])
    requires |a| + 1 + |b| > 6
    ensures TruncateNameForMobile(a + [' '] + b) == [Text.ToUpperChar(a[0]), Text.ToUpperChar(b[0])]
  {
    Text.TwoWords(a, b);
    var r := Initials([a, b]);
    assert r == [r[0], r[1]];
  }
}
