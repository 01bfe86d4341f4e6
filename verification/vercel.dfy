/**
 * The serverless API (api/index.ts): the same ordering-key engine as the server, over one
 * shared database with no users, projects or ownership checks. A write the database refuses
 * (an update of a missing row, a reference to a missing staff member) fails the request
 * with nothing written.
 */
module VercelApi {
  import opened Wrappers
  import opened KeySpace
  import Text
  import Csv
  import ServerApi

  datatype TaskRow = TaskRow(name: string, mandays: int, jiraUrl: Option<string>, theme: Option<string>)

  /** 400 from request validation, or a write the database refuses. */
  datatype Error = ValidationError | DbError

  /** The header line of the export. */
  const Header: seq<string> := ["name", "mandays", "staff", "theme", "jira"]

  /** The cells of one exported task; the staff cell is empty for a backlog task. */
  function ExportFields(t: TaskRow, staffName: Option<string>): (f: seq<string>)
    ensures |f| == 5 && f[0] == t.name && f[2] == staffName.GetOr("")
  {
    [t.name, Text.Decimal(t.mandays), staffName.GetOr(""), t.theme.GetOr(""), t.jiraUrl.GetOr("")]
  }

  /**
   * One line of the export as the route writes it: the escaped name, the mandays as a
   * number, the escaped staff name (a bare empty cell for the backlog), theme and link.
   * It is the standard encoding of the task's cells.
   */
  function ExportLine(t: TaskRow, staffName: Option<string>): (line: string)
    ensures line == Csv.EncodeLine(ExportFields(t, staffName))
  {
    var staffCell := if staffName.Some? then Csv.Escape(staffName.value) else "";
    var cells := [Csv.Escape(t.name), Text.Decimal(t.mandays), staffCell,
                  Csv.Escape(t.theme.GetOr("")), Csv.Escape(t.jiraUrl.GetOr(""))];
    ExportLineCells(t, staffName);
    Csv.Join(cells, ",")
  }

  lemma ExportLineCells(t: TaskRow, staffName: Option<string>)
    ensures Csv.Join([Csv.Escape(t.name), Text.Decimal(t.mandays),
                      if staffName.Some? then Csv.Escape(staffName.value) else "",
                      Csv.Escape(t.theme.GetOr("")), Csv.Escape(t.jiraUrl.GetOr(""))], ",")
         == Csv.EncodeLine(ExportFields(t, staffName))
  {
    var f := ExportFields(t, staffName);
    var d := Text.Decimal(t.mandays);
    Csv.PlainField(d);
    Csv.PlainField("");
    Csv.JoinEscaped(f);
    Csv.EscapeEachIndex(f);
    assert Csv.EscapeEach(f) == [Csv.Escape(f[0]), Csv.Escape(f[1]), Csv.Escape(f[2]), Csv.Escape(f[3]), Csv.Escape(f[4])];
  }

  /** The rows of a queue: one per task of `q` that the task query found, in queue order. */
  function RowsOf(tasks: map<TaskId, TaskRow>, q: seq<TaskId>, staffName: Option<string>): (rows: seq<seq<string>>)
    ensures forall k :: 0 <= k < |rows| ==> |rows[k]| == 5
  {
    if q == [] then []
    else
      var last := q[|q| - 1];
      RowsOf(tasks, q[..|q| - 1], staffName) + (if last in tasks then [ExportFields(tasks[last], staffName)] else [])
  }

  /** The rows of a queue follow its join: row `k` holds the `k`-th found task. */
  lemma {:induction false} RowsFollowJoin(tasks: map<TaskId, TaskRow>, q: seq<TaskId>, staffName: Option<string>)
    ensures |RowsOf(tasks, q, staffName)| == |Join(tasks, q)|
    ensures forall k :: 0 <= k < |Join(tasks, q)| ==>
      Join(tasks, q)[k] in tasks && RowsOf(tasks, q, staffName)[k] == ExportFields(tasks[Join(tasks, q)[k]], staffName)
  {
    if q != [] {
      var init := q[..|q| - 1];
      var last := q[|q| - 1];
      RowsFollowJoin(tasks, init, staffName);
      assert q == init + [last];
      JoinSnoc(tasks, init, last);
    }
  }

  /** The rows of the staff queues, staff member by staff member. */
  function StaffRows(tasks: map<TaskId, TaskRow>, staff: map<StaffId, string>, order: seq<StaffId>,
                     queues: seq<seq<TaskId>>): (rows: seq<seq<string>>)
    requires |queues| == |order| && forall k :: 0 <= k < |order| ==> order[k] in staff
    ensures forall k :: 0 <= k < |rows| ==> |rows[k]| == 5
  {
    if order == [] then []
    else
      var n := |order| - 1;
      StaffRows(tasks, staff, order[..n], queues[..n]) + RowsOf(tasks, queues[n], Some(staff[order[n]]))
  }

  /** The task ids the export lists, in its order: the backlog's found tasks, then each staff queue's. */
  function ExportedIds(tasks: map<TaskId, TaskRow>, backlog: seq<TaskId>, queues: seq<seq<TaskId>>): seq<TaskId> {
    Join(tasks, backlog) + QueueIds(tasks, queues)
  }

  function QueueIds(tasks: map<TaskId, TaskRow>, queues: seq<seq<TaskId>>): seq<TaskId> {
    if queues == [] then []
    else QueueIds(tasks, queues[..|queues| - 1]) + Join(tasks, queues[|queues| - 1])
  }

  /** The staff queues read so far hold, once each, the found tasks assigned to those staff members. */
  lemma {:induction false} QueueIdsPrefix(tasks: map<TaskId, TaskRow>, m: Table, order: seq<StaffId>,
                                          queues: seq<seq<TaskId>>, n: nat)
    requires Distinct(order) && |queues| == |order| && n <= |order|
    requires forall k :: 0 <= k < |order| ==> IsQueue(m, Some(order[k]), queues[k])
    ensures Distinct(QueueIds(tasks, queues[..n]))
    ensures forall id :: id in QueueIds(tasks, queues[..n]) <==>
      id in tasks && id in m && m[id].staff.Some? && m[id].staff.value in order[..n]
  {
    if n == 0 {
      assert queues[..0] == [];
    } else {
      QueueIdsPrefix(tasks, m, order, queues, n - 1);
      var prev := QueueIds(tasks, queues[..n - 1]);
      var q := queues[n - 1];
      assert queues[..n][..n - 1] == queues[..n - 1];
      assert QueueIds(tasks, queues[..n]) == prev + Join(tasks, q);
      JoinKeepsOrder(m, tasks, q);
      assert order[..n] == order[..n - 1] + [order[n - 1]];
      forall id | id in prev
        ensures id !in Join(tasks, q)
      {
        var k :| 0 <= k < n - 1 && order[..n - 1][k] == m[id].staff.value;
        assert order[k] != order[n - 1];
      }
      DistinctConcat(prev, Join(tasks, q));
    }
  }

  /**
   * The export lists every task exactly once: the backlog's found tasks and the staff
   * queues' found tasks are disjoint, without repeats, and together are all the tasks.
   */
  lemma ExportCoversTasks(tasks: map<TaskId, TaskRow>, staff: map<StaffId, string>, m: Table,
                          backlog: seq<TaskId>, order: seq<StaffId>, queues: seq<seq<TaskId>>)
    requires m.Keys == tasks.Keys
    requires forall id :: id in m && m[id].staff.Some? ==> m[id].staff.value in staff
    requires IsQueue(m, None, backlog) && IsStaffOrder(staff, order)
    requires |queues| == |order| && forall k :: 0 <= k < |order| ==> IsQueue(m, Some(order[k]), queues[k])
    ensures Distinct(ExportedIds(tasks, backlog, queues))
    ensures forall id :: id in ExportedIds(tasks, backlog, queues) <==> id in tasks
  {
    var b := Join(tasks, backlog);
    JoinKeepsOrder(m, tasks, backlog);
    QueueIdsPrefix(tasks, m, order, queues, |order|);
    assert queues[..|order|] == queues && order[..|order|] == order;
    DistinctConcat(b, QueueIds(tasks, queues));
  }

  /** The staff in the order `ORDER BY name` reads them: each once, names non-decreasing. */
  ghost predicate IsStaffOrder(staff: map<StaffId, string>, order: seq<StaffId>) {
    && Distinct(order)
    && (forall id :: id in order <==> id in staff)
    && (forall i, j :: 0 <= i < j < |order| ==> Text.NameLe(staff[order[i]], staff[order[j]]))
  }

  lemma InsertByName(staff: map<StaffId, string>, order: seq<StaffId>, id: StaffId, i: nat)
    requires forall k :: 0 <= k < |order| ==> order[k] in staff
    requires forall a, b :: 0 <= a < b < |order| ==> Text.NameLe(staff[order[a]], staff[order[b]])
    requires id in staff && i <= |order|
    requires forall k :: 0 <= k < i ==> Text.NameLe(staff[order[k]], staff[id])
    requires i < |order| ==> !Text.NameLe(staff[order[i]], staff[id])
    ensures var r := order[..i] + [id] + order[i..];
      forall a, b :: 0 <= a < b < |r| ==> Text.NameLe(staff[r[a]], staff[r[b]])
  {
    var r := order[..i] + [id] + order[i..];
    assert forall k :: 0 <= k < |r| ==> r[k] == if k < i then order[k] else if k == i then id else order[k - 1];
    assert forall k :: 0 <= k < |r| ==> r[k] in staff;
    if i < |order| {
      Text.NameLeTotal(staff[order[i]], staff[id]);
      forall k | i <= k < |order|
        ensures Text.NameLe(staff[id], staff[order[k]])
      {
        if k > i {
          Text.NameLeTransitive(staff[id], staff[order[i]], staff[order[k]]);
        }
      }
    }
  }

  class Store {
    var tasks: map<TaskId, TaskRow>
    var staff: map<StaffId, string>
    var assignments: Table

    /** Every task has exactly one assignment, and an assignment names an existing staff member or the backlog. */
    ghost predicate Valid()
      reads this
    {
      && assignments.Keys == tasks.Keys
      && forall id :: id in assignments && assignments[id].staff.Some? ==> assignments[id].staff.value in staff
    }

    /**
     * `POST /api/tasks`: validate, create the task and give it an assignment at the end of
     * the backlog, 1024 above the backlog's maximum. `freshId` stands for the id the
     * database generates.
     */
    method CreateTask(name: string, mandays: int, jiraUrl: Option<string>, theme: Option<string>, freshId: TaskId)
      returns (r: Result<TaskId, Error>)
      requires Valid() && freshId !in tasks
      modifies this
      ensures Valid() && staff == old(staff)
      ensures r.Err? <==> Text.IsBlank(name) || mandays < 1
      ensures r.Err? ==> r == Err(ValidationError) && tasks == old(tasks) && assignments == old(assignments)
      ensures r.Ok? ==> (r.value == freshId &&
        tasks == old(tasks)[freshId := TaskRow(Text.Trim(name), mandays, Text.NonBlankTrimmed(jiraUrl),
                                               Text.NonBlankTrimmed(theme))])
      ensures r.Ok? ==> (freshId in assignments && assignments[freshId].staff.None? &&
        assignments == old(assignments)[freshId := assignments[freshId]])
      ensures r.Ok? ==> forall b :: IsQueue(old(assignments), None, b) ==> IsQueue(assignments, None, b + [freshId])
      ensures r.Ok? && (forall id :: !InQueue(old(assignments), None, id)) ==> assignments[freshId].position == 1024.0
    {
      var trimmed := Text.Trim(name);
      if trimmed == [] || mandays < 1 {
        return Err(ValidationError);
      }
      InsertTask(freshId, TaskRow(trimmed, mandays, Text.NonBlankTrimmed(jiraUrl), Text.NonBlankTrimmed(theme)));
      r := Ok(freshId);
    }

    /** The transaction of `POST /api/tasks`: create the task, then its assignment 1024 above the backlog maximum. */
    method InsertTask(id: TaskId, row: TaskRow)
      requires Valid() && id !in tasks
      modifies this
      ensures Valid() && staff == old(staff)
      ensures tasks == old(tasks)[id := row]
      ensures id in assignments && assignments[id].staff.None?
      ensures assignments == old(assignments)[id := assignments[id]]
      ensures forall b :: IsQueue(old(assignments), None, b) ==> IsQueue(assignments, None, b + [id])
      ensures (forall t :: !InQueue(old(assignments), None, t)) ==> assignments[id].position == 1024.0
    {
      tasks := tasks[id := row];
      var base := MaxPosition(assignments, None);
      AppendToBacklogAll(assignments, base, id);
      assignments := assignments[id := Assignment(None, NextPosition(base))];
    }

    /**
     * `POST /api/assignments/move`: validate the ids, compute the key from the neighbours
     * (`MoveKey`), then update the task's assignment; the update fails when the task has
     * no assignment or the target staff member does not exist.
     */
    method MoveTask(taskId: TaskId, target: Option<StaffId>, beforeId: Option<TaskId>, afterId: Option<TaskId>)
      returns (r: Result<Assignment, Error>)
      requires Valid()
      modifies this
      ensures Valid() && tasks == old(tasks) && staff == old(staff)
      ensures r == Err(ValidationError) <==>
        taskId == "" || target == Some("") || beforeId == Some("") || afterId == Some("")
      ensures r == Err(DbError) <==>
        !(taskId == "" || target == Some("") || beforeId == Some("") || afterId == Some("")) &&
        (taskId !in old(assignments) || (target.Some? && target.value !in staff))
      ensures r.Err? ==> assignments == old(assignments)
      ensures r.Ok? ==> r.value.staff == target && assignments == old(assignments)[taskId := r.value]
      ensures r.Ok? ==>
        var b := NeighbourKey(old(assignments), beforeId); var a := NeighbourKey(old(assignments), afterId);
        var p := r.value.position;
        && (b.Some? && a.Some? ==> p == (b.value + a.value) / 2.0)
        && (b.Some? && a.None? ==> p == b.value + 1.0)
        && (b.None? && a.Some? ==> p == a.value - 1.0)
        && (b.None? && a.None? ==> IsMaxPosition(old(assignments), target, p - Gap))
    {
      if taskId == "" || target == Some("") || beforeId == Some("") || afterId == Some("") {
        return Err(ValidationError);
      }
      var p := MoveKey(assignments, target, beforeId, afterId);
      if taskId !in assignments || (target.Some? && target.value !in staff) {
        return Err(DbError);
      }
      var updated := Assignment(target, p);
      assignments := assignments[taskId := updated];
      r := Ok(updated);
    }

    /**
     * `DELETE /api/staff/:id`: the staff member's queue, read in key order (`moved`), is
     * re-keyed onto the end of the backlog, then the staff member is deleted. With no such
     * staff member the queue is empty, nothing is re-keyed and the delete fails.
     */
    method DeleteStaff(id: StaffId) returns (r: Result<(), Error>, ghost moved: seq<TaskId>)
      requires Valid()
      modifies this
      ensures Valid() && tasks == old(tasks)
      ensures r.Err? <==> id !in old(staff)
      ensures r.Err? ==> r == Err(DbError) && staff == old(staff) && assignments == old(assignments)
      ensures r.Ok? ==> staff == old(staff) - {id}
      ensures IsQueue(old(assignments), Some(id), moved)
      ensures forall b :: IsQueue(old(assignments), None, b) ==> IsQueue(assignments, None, b + moved)
      ensures forall t, qt :: t != id && IsQueue(old(assignments), Some(t), qt) ==> IsQueue(assignments, Some(t), qt)
      ensures exists base :: IsMaxPosition(old(assignments), None, base) && Rekeyed(old(assignments), moved, base, assignments)
    {
      var q, m' := MoveQueueToBacklog(assignments, id, staff.Keys);
      assert q != [] ==> id in staff by {
        if q != [] {
          assert InQueue(assignments, Some(id), q[0]);
        }
      }
      moved := q;
      assignments := m';
      if id !in staff {
        return Err(DbError), moved;
      }
      staff := staff - {id};
      r := Ok(());
    }

    /**
     * `GET /api/tasks`: for a staff or backlog listing, the queue read in key order
     * (`order`) joined to the tasks; otherwise every task, in no particular order.
     */
    method ListTasks(staffParam: Option<string>, unassignedParam: Option<string>)
      returns (r: seq<TaskId>, ghost order: seq<TaskId>)
      ensures !ServerApi.ListingOf(staffParam, unassignedParam).AllTasks? ==>
        IsQueue(assignments, ServerApi.QueueKey(ServerApi.ListingOf(staffParam, unassignedParam)), order) &&
        r == Join(tasks, order)
      ensures ServerApi.ListingOf(staffParam, unassignedParam).AllTasks? ==>
        Distinct(r) && forall id :: id in r <==> id in tasks
    {
      order := [];
      var listing := ServerApi.ListingOf(staffParam, unassignedParam);
      if !listing.AllTasks? {
        var q := QueueOf(assignments, ServerApi.QueueKey(listing));
        order := q;
        r := Join(tasks, q);
      } else {
        r := [];
        var rest := tasks.Keys;
        while rest != {}
          invariant rest <= tasks.Keys
          invariant Distinct(r)
          invariant forall id :: id in r <==> id in tasks && id !in rest
          decreases |rest|
        {
          var id :| id in rest;
          rest := rest - {id};
          r := r + [id];
        }
      }
    }

    /** `staff.findMany({ orderBy: { name: 'asc' } })`. */
    method StaffByName() returns (order: seq<StaffId>)
      ensures IsStaffOrder(staff, order)
    {
      order := [];
      var rest := staff.Keys;
      while rest != {}
        invariant rest <= staff.Keys
        invariant Distinct(order)
        invariant forall id :: id in order <==> id in staff && id !in rest
        invariant forall i, j :: 0 <= i < j < |order| ==> Text.NameLe(staff[order[i]], staff[order[j]])
        decreases |rest|
      {
        var id :| id in rest;
        rest := rest - {id};
        order := InsertByNameAt(order, id);
      }
    }

    /** One step of the sort: `id` goes after every staff member whose name sorts before or equal to its own. */
    method InsertByNameAt(order: seq<StaffId>, id: StaffId) returns (r: seq<StaffId>)
      requires Distinct(order) && id !in order && id in staff
      requires forall k :: 0 <= k < |order| ==> order[k] in staff
      requires forall i, j :: 0 <= i < j < |order| ==> Text.NameLe(staff[order[i]], staff[order[j]])
      ensures Distinct(r) && forall x :: x in r <==> x in order || x == id
      ensures forall k :: 0 <= k < |r| ==> r[k] in staff
      ensures forall i, j :: 0 <= i < j < |r| ==> Text.NameLe(staff[r[i]], staff[r[j]])
    {
      var i := 0;
      while i < |order| && Text.NameLe(staff[order[i]], staff[id])
        invariant i <= |order|
        invariant forall k :: 0 <= k < i ==> Text.NameLe(staff[order[k]], staff[id])
      {
        i := i + 1;
      }
      InsertByName(staff, order, id, i);
      InsertDistinct(order, id, i);
      r := order[..i] + [id] + order[i..];
    }

    /** The lines of one queue's found tasks, appended to `lines`. */
    method PushQueue(lines: seq<string>, ghost rows: seq<seq<string>>, q: seq<TaskId>, staffName: Option<string>)
      returns (lines': seq<string>, ghost rows': seq<seq<string>>)
      requires lines == Csv.EncodeEach(rows)
      ensures rows' == rows + RowsOf(tasks, q, staffName)
      ensures lines' == Csv.EncodeEach(rows')
    {
      lines', rows' := lines, rows;
      for j := 0 to |q|
        invariant rows' == rows + RowsOf(tasks, q[..j], staffName)
        invariant lines' == Csv.EncodeEach(rows')
      {
        PushStep(tasks, rows, rows', lines', q, j, staffName);
        if q[j] in tasks {
          lines' := lines' + [ExportLine(tasks[q[j]], staffName)];
          rows' := rows' + [ExportFields(tasks[q[j]], staffName)];
        }
      }
      assert q[..|q|] == q;
    }

    /** The staff queues, staff member by staff member in the order given, each read in key order. */
    method PushStaff(lines: seq<string>, ghost rows: seq<seq<string>>, byName: seq<StaffId>)
      returns (lines': seq<string>, ghost rows': seq<seq<string>>, ghost queues: seq<seq<TaskId>>)
      requires lines == Csv.EncodeEach(rows)
      requires forall k :: 0 <= k < |byName| ==> byName[k] in staff
      ensures |queues| == |byName| && forall k :: 0 <= k < |byName| ==> IsQueue(assignments, Some(byName[k]), queues[k])
      ensures rows' == rows + StaffRows(tasks, staff, byName, queues)
      ensures lines' == Csv.EncodeEach(rows')
    {
      lines', rows' := lines, rows;
      queues := [];
      for k := 0 to |byName|
        invariant |queues| == k
        invariant forall i :: 0 <= i < k ==> IsQueue(assignments, Some(byName[i]), queues[i])
        invariant rows' == rows + StaffRows(tasks, staff, byName[..k], queues)
        invariant lines' == Csv.EncodeEach(rows')
      {
        ghost var q;
        ghost var prev := rows';
        lines', rows', q := PushStaffQueue(lines', rows', byName[k]);
        PushStaffAdvance(tasks, staff, assignments, byName, queues, q, k, rows, prev, rows');
        queues := queues + [q];
      }
      assert byName[..|byName|] == byName;
    }

    /** One staff member's queue, read in key order (`q`), appended when it is not empty. */
    method PushStaffQueue(lines: seq<string>, ghost rows: seq<seq<string>>, s: StaffId)
      returns (lines': seq<string>, ghost rows': seq<seq<string>>, ghost q: seq<TaskId>)
      requires lines == Csv.EncodeEach(rows) && s in staff
      ensures IsQueue(assignments, Some(s), q)
      ensures rows' == rows + RowsOf(tasks, q, Some(staff[s]))
      ensures lines' == Csv.EncodeEach(rows')
    {
      var assigns := QueueOf(assignments, Some(s));
      q := assigns;
      lines', rows' := lines, rows;
      if |assigns| > 0 {
        lines', rows' := PushQueue(lines, rows, assigns, Some(staff[s]));
      }
    }

    /**
     * `GET /api/export/csv`: the header, the backlog's tasks in key order, then each staff
     * member's queue in key order, staff by name; the lines are joined by CRLF. The text
     * is the standard encoding of `rows`, so the planner's parser reads `rows` back.
     */
    method ExportCsv() returns (csv: string, ghost rows: seq<seq<string>>, ghost backlog: seq<TaskId>,
                                ghost order: seq<StaffId>, ghost queues: seq<seq<TaskId>>)
      ensures IsQueue(assignments, None, backlog) && IsStaffOrder(staff, order)
      ensures |queues| == |order| && forall k :: 0 <= k < |order| ==> IsQueue(assignments, Some(order[k]), queues[k])
      ensures rows == [Header] + RowsOf(tasks, backlog, None) + StaffRows(tasks, staff, order, queues)
      ensures csv == Csv.EncodeRows(rows)
      ensures Csv.Parse(csv) == rows
    {
      var lines := [Csv.Join(Header, ",")];
      rows := [Header];
      HeaderLine();
      var b := QueueOf(assignments, None);
      backlog := b;
      if |b| > 0 {
        lines, rows := PushQueue(lines, rows, b, None);
      } else {
        assert rows == [Header] + RowsOf(tasks, b, None);
      }
      ghost var head := rows;
      var byName := StaffByName();
      order := byName;
      lines, rows, queues := PushStaff(lines, rows, byName);
      csv := Csv.Join(lines, "\r\n");
      Csv.JoinEncoded(rows);
      ExportParses(RowsOf(tasks, backlog, None), StaffRows(tasks, staff, order, queues));
    }
  }

  /** The header line as the route writes it is the encoding of the header cells. */
  lemma HeaderLine()
    ensures Csv.EncodeEach([Header]) == [Csv.Join(Header, ",")]
  {
    forall k, i | 0 <= k < |Header| && 0 <= i < |Header[k]|
      ensures !Csv.IsSpecial(Header[k][i])
    {
      assert 'a' <= Header[k][i] <= 'z';
    }
    Csv.JoinPlain(Header);
    assert Csv.EncodeEach([Header]) == [Csv.EncodeLine(Header)] + Csv.EncodeEach([]);
  }

  /** One task of a queue: its line and its row are appended when the task was found. */
  lemma PushStep(tasks: map<TaskId, TaskRow>, rows0: seq<seq<string>>, rows: seq<seq<string>>, lines: seq<string>,
                 q: seq<TaskId>, j: nat, staffName: Option<string>)
    requires j < |q|
    requires rows == rows0 + RowsOf(tasks, q[..j], staffName) && lines == Csv.EncodeEach(rows)
    ensures q[j] in tasks ==>
      var f := ExportFields(tasks[q[j]], staffName);
      rows + [f] == rows0 + RowsOf(tasks, q[..j + 1], staffName) &&
      lines + [ExportLine(tasks[q[j]], staffName)] == Csv.EncodeEach(rows + [f])
    ensures q[j] !in tasks ==> rows == rows0 + RowsOf(tasks, q[..j + 1], staffName)
  {
    assert q[..j + 1][..j] == q[..j];
    if q[j] in tasks {
      var f := ExportFields(tasks[q[j]], staffName);
      Csv.EncodeEachAppend(rows, [f]);
      assert Csv.EncodeEach([f]) == [Csv.EncodeLine(f)] + Csv.EncodeEach([]);
    }
  }

  /** One staff member: their queue's rows follow the rows of the staff before them. */
  lemma StaffStep(tasks: map<TaskId, TaskRow>, staff: map<StaffId, string>, byName: seq<StaffId>,
                  queues: seq<seq<TaskId>>, q: seq<TaskId>, k: nat)
    requires k < |byName| && |queues| == k
    requires forall i :: 0 <= i < |byName| ==> byName[i] in staff
    ensures StaffRows(tasks, staff, byName[..k + 1], queues + [q])
         == StaffRows(tasks, staff, byName[..k], queues) + RowsOf(tasks, q, Some(staff[byName[k]]))
  {
    assert byName[..k + 1][..k] == byName[..k] && (queues + [q])[..k] == queues;
  }

  lemma Associate<T>(a: seq<T>, b: seq<T>, c: seq<T>, x: seq<T>, y: seq<T>)
    requires b == a + x && c == b + y
    ensures c == a + (x + y)
  {
  }

  /** One staff member more in the export: its queue's rows follow those of the members before it. */
  lemma PushStaffAdvance(tasks: map<TaskId, TaskRow>, staff: map<StaffId, string>, m: Table, byName: seq<StaffId>,
                         queues: seq<seq<TaskId>>, q: seq<TaskId>, k: nat,
                         rows: seq<seq<string>>, prev: seq<seq<string>>, next: seq<seq<string>>)
    requires k < |byName| && |queues| == k
    requires forall i :: 0 <= i < |byName| ==> byName[i] in staff
    requires forall i :: 0 <= i < k ==> IsQueue(m, Some(byName[i]), queues[i])
    requires prev == rows + StaffRows(tasks, staff, byName[..k], queues)
    requires IsQueue(m, Some(byName[k]), q)
    requires next == prev + RowsOf(tasks, q, Some(staff[byName[k]]))
    ensures forall i :: 0 <= i < k + 1 ==> IsQueue(m, Some(byName[i]), (queues + [q])[i])
    ensures next == rows + StaffRows(tasks, staff, byName[..k + 1], queues + [q])
  {
    StaffStep(tasks, staff, byName, queues, q, k);
    Associate(rows, prev, next, StaffRows(tasks, staff, byName[..k], queues), RowsOf(tasks, q, Some(staff[byName[k]])));
    QueuesStep(m, byName, queues, q, k);
  }

  /** The queues read so far, grown by the next staff member's queue. */
  lemma QueuesStep(m: Table, byName: seq<StaffId>, queues: seq<seq<TaskId>>, q: seq<TaskId>, k: nat)
    requires k < |byName| && |queues| == k
    requires forall i :: 0 <= i < k ==> IsQueue(m, Some(byName[i]), queues[i])
    requires IsQueue(m, Some(byName[k]), q)
    ensures forall i :: 0 <= i < k + 1 ==> IsQueue(m, Some(byName[i]), (queues + [q])[i])
  {
    assert forall i :: 0 <= i < k ==> (queues + [q])[i] == queues[i];
  }

  /** Every export line has five cells and the header starts with `n`: the parser reads the export back. */
  lemma ExportParses(backlogRows: seq<seq<string>>, staffRows: seq<seq<string>>)
    requires forall k :: 0 <= k < |backlogRows| ==> |backlogRows[k]| == 5
    requires forall k :: 0 <= k < |staffRows| ==> |staffRows[k]| == 5
    ensures Csv.Parse(Csv.EncodeRows([Header] + backlogRows + staffRows)) == [Header] + backlogRows + staffRows
  {
    var rows := [Header] + backlogRows + staffRows;
    assert forall k :: 0 <= k < |rows| ==> Csv.Carried(rows[k]) by {
      forall k | 0 <= k < |rows|
        ensures |rows[k]| == 5
      {
        if k == 0 {
        } else if k <= |backlogRows| {
          assert rows[k] == backlogRows[k - 1];
        } else {
          assert rows[k] == staffRows[k - 1 - |backlogRows|];
        }
      }
    }
    assert rows[0][0][0] == 'n';
    Csv.EncodedRowsParse(rows);
  }
}
