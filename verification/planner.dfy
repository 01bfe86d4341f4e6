/**
 * The single-page planner (app.js): a global state of tasks, a backlog of task ids and one
 * queue of task ids per staff member, changed in place by the page's actions; the date axis
 * and horizon of its chart; its CSV export and import.
 */
module Planner {
  import opened Wrappers
  import Text
  import Calendar
  import Csv

  type Id = string

  datatype Task = Task(id: Id, name: string, mandays: int, jira: Option<string>)

  datatype StaffMember = StaffMember(id: Id, name: string, queue: seq<Id>)

  /** Every id in every queue, with repeats. */
  function Queued(staff: seq<StaffMember>): multiset<Id> {
    if staff == [] then multiset{} else multiset(staff[0].queue) + Queued(staff[1..])
  }

  /** Every id in the backlog or a queue, with repeats. */
  function Placed(backlog: seq<Id>, staff: seq<StaffMember>): multiset<Id> {
    multiset(backlog) + Queued(staff)
  }

  ghost predicate AtMostOnce(m: multiset<Id>) {
    forall id :: m[id] <= 1
  }

  predicate DistinctStaff(staff: seq<StaffMember>) {
    forall i, j :: 0 <= i < j < |staff| ==> staff[i].id != staff[j].id
  }

  /** `q.filter((x) => x !== id)`. */
  function Without(q: seq<Id>, id: Id): (r: seq<Id>)
    ensures multiset(r) == multiset(q)[id := 0]
    ensures id !in q ==> r == q
  {
    if q == [] then []
    else
      assert q == [q[0]] + q[1..];
      (if q[0] == id then [] else [q[0]]) + Without(q[1..], id)
  }

  /** `s.queue = s.queue.filter((x) => x !== id)` for every staff member. */
  function Strip(staff: seq<StaffMember>, id: Id): (r: seq<StaffMember>)
    ensures |r| == |staff|
    ensures forall i :: 0 <= i < |staff| ==> r[i] == staff[i].(queue := Without(staff[i].queue, id))
  {
    if staff == [] then [] else [staff[0].(queue := Without(staff[0].queue, id))] + Strip(staff[1..], id)
  }

  /** `staff.find((s) => s.id === id)`, as an index. */
  function FindStaff(staff: seq<StaffMember>, id: Id): (k: Option<nat>)
    ensures k.Some? ==> k.value < |staff| && staff[k.value].id == id
    ensures k.Some? ==> forall j :: 0 <= j < k.value ==> staff[j].id != id
    ensures k.None? <==> forall j :: 0 <= j < |staff| ==> staff[j].id != id
  {
    if staff == [] then None
    else if staff[0].id == id then Some(0)
    else match FindStaff(staff[1..], id)
      case None => None
      case Some(k) => Some(k + 1)
  }

  /** `tasks.find((t) => t.id === id)`. */
  function TaskById(tasks: seq<Task>, id: Id): (t: Option<Task>)
    ensures t.Some? ==> t.value in tasks && t.value.id == id
    ensures t.None? <==> forall i :: 0 <= i < |tasks| ==> tasks[i].id != id
  {
    if tasks == [] then None
    else if tasks[0].id == id then Some(tasks[0])
    else TaskById(tasks[1..], id)
  }

  /** `staff.filter((s) => s.id !== id)`. */
  function DropStaff(staff: seq<StaffMember>, id: Id): (r: seq<StaffMember>)
    ensures forall s :: s in r <==> s in staff && s.id != id
    ensures FindStaff(staff, id).None? ==> r == staff
  {
    if staff == [] then []
    else (if staff[0].id == id then [] else [staff[0]]) + DropStaff(staff[1..], id)
  }

  /** `tasks.filter((t) => t.id !== id)`. */
  function DropTask(tasks: seq<Task>, id: Id): (r: seq<Task>)
    ensures forall t :: t in r <==> t in tasks && t.id != id
  {
    if tasks == [] then []
    else (if tasks[0].id == id then [] else [tasks[0]]) + DropTask(tasks[1..], id)
  }

  /** `Math.max(1, Math.floor(mandays))`. */
  function Clamp(mandays: real): (d: int)
  {
    if mandays.Floor < 1 then 1 else mandays.Floor
  }

  /** A new task lasts at least a day, and a duration of a day or more is rounded down. */
  lemma ClampRoundsDown(mandays: real)
    ensures Clamp(mandays) >= 1
    ensures mandays >= 1.0 ==> Clamp(mandays) as real <= mandays < Clamp(mandays) as real + 1.0
    ensures mandays < 1.0 ==> Clamp(mandays) == 1
  {
  }

  /** The queues after `enqueueTaskToStaff`: the id taken out of every queue, then put at the end of the target's. */
  function Enqueued(staff: seq<StaffMember>, taskId: Id, staffId: Id): seq<StaffMember> {
    var s := Strip(staff, taskId);
    match FindStaff(staff, staffId)
    case None => s
    case Some(k) => s[k := s[k].(queue := s[k].queue + [taskId])]
  }

  /** The backlog after `returnTaskToBacklog`: the id in front unless it is already there. */
  function Returned(backlog: seq<Id>, id: Id): seq<Id> {
    if id in backlog then backlog else [id] + backlog
  }

  lemma {:induction false} QueuedStrip(staff: seq<StaffMember>, id: Id)
    ensures Queued(Strip(staff, id)) == Queued(staff)[id := 0]
  {
    if staff != [] {
      var r := Strip(staff, id);
      QueuedStrip(staff[1..], id);
      assert r[1..] == Strip(staff[1..], id);
      assert Queued(r) == multiset(Without(staff[0].queue, id)) + Queued(r[1..]);
      ZeroOfSum(multiset(staff[0].queue), Queued(staff[1..]), id);
    }
  }

  lemma ZeroOfSum(a: multiset<Id>, b: multiset<Id>, id: Id)
    ensures (a + b)[id := 0] == a[id := 0] + b[id := 0]
  {
  }

  lemma {:induction false} QueuedUpdate(staff: seq<StaffMember>, k: nat, s: StaffMember)
    requires k < |staff|
    ensures Queued(staff[k := s]) + multiset(staff[k].queue) == Queued(staff) + multiset(s.queue)
  {
    var u := staff[k := s];
    var a := multiset(staff[0].queue);
    assert Queued(u) == multiset(u[0].queue) + Queued(u[1..]);
    assert Queued(staff) == a + Queued(staff[1..]);
    if k > 0 {
      assert u[1..] == staff[1..][k - 1 := s] && u[0] == staff[0] && staff[1..][k - 1] == staff[k];
      QueuedUpdate(staff[1..], k - 1, s);
      var r, r' := Queued(staff[1..]), Queued(u[1..]);
      assert r' + multiset(staff[k].queue) == r + multiset(s.queue);
      assert Queued(u) == a + r';
      assert Queued(staff) == a + r;
      assert Queued(u) + multiset(staff[k].queue) == a + (r' + multiset(staff[k].queue));
      assert a + (r + multiset(s.queue)) == Queued(staff) + multiset(s.queue);
    } else {
      assert u[1..] == staff[1..];
    }
  }

  lemma OnceAfterSet(m: multiset<Id>, id: Id, c: nat)
    requires AtMostOnce(m) && c <= 1
    ensures AtMostOnce(m[id := c])
  {
    var m' := m[id := c];
    forall x ensures m'[x] <= 1 {
      if x != id {
        assert m'[x] == m[x];
      }
    }
  }

  lemma OnceAfterAdd(m: multiset<Id>, id: Id)
    requires AtMostOnce(m) && m[id] == 0
    ensures AtMostOnce(m + multiset{id})
  {
    assert m + multiset{id} == m[id := 1];
    OnceAfterSet(m, id, 1);
  }

  lemma {:induction false} StripKeepsStaff(staff: seq<StaffMember>, id: Id, staffId: Id)
    ensures DistinctStaff(staff) ==> DistinctStaff(Strip(staff, id))
    ensures FindStaff(Strip(staff, id), staffId) == FindStaff(staff, staffId)
  {
    FindStaffStrip(staff, staffId, id);
  }

  lemma {:induction false} DropStaffDistinct(staff: seq<StaffMember>, id: Id)
    requires DistinctStaff(staff)
    ensures DistinctStaff(DropStaff(staff, id))
  {
    if staff != [] {
      DropStaffDistinct(staff[1..], id);
      var rest := DropStaff(staff[1..], id);
      if staff[0].id != id {
        assert DropStaff(staff, id) == [staff[0]] + rest;
        forall j | 0 <= j < |rest| ensures rest[j].id != staff[0].id {
          assert rest[j] in staff[1..];
        }
      }
    }
  }

  lemma {:induction false} QueuedSnoc(staff: seq<StaffMember>, s: StaffMember)
    ensures Queued(staff + [s]) == Queued(staff) + multiset(s.queue)
  {
    if staff != [] {
      QueuedSnoc(staff[1..], s);
      assert (staff + [s])[1..] == staff[1..] + [s];
    } else {
      assert ([s])[1..] == [];
    }
  }

  lemma {:induction false} QueuedDrop(staff: seq<StaffMember>, id: Id)
    requires DistinctStaff(staff) && FindStaff(staff, id).Some?
    ensures Queued(DropStaff(staff, id)) + multiset(staff[FindStaff(staff, id).value].queue) == Queued(staff)
  {
    if staff[0].id == id {
      assert FindStaff(staff[1..], id).None?;
      assert DropStaff(staff, id) == DropStaff(staff[1..], id);
    } else {
      QueuedDrop(staff[1..], id);
      assert DropStaff(staff, id) == [staff[0]] + DropStaff(staff[1..], id);
      assert ([staff[0]] + DropStaff(staff[1..], id))[1..] == DropStaff(staff[1..], id);
    }
  }

  lemma {:induction false} FindStaffStrip(staff: seq<StaffMember>, id: Id, taskId: Id)
    ensures FindStaff(Strip(staff, taskId), id) == FindStaff(staff, id)
  {
    if staff != [] {
      FindStaffStrip(staff[1..], id, taskId);
      assert Strip(staff, taskId)[1..] == Strip(staff[1..], taskId);
    }
  }

  /**
   * `enqueueTaskToStaff` on a known task: every other id keeps its count, and the id is
   * placed exactly once when the staff member exists and nowhere when not.
   */
  lemma EnqueuePlacesOnce(backlog: seq<Id>, staff: seq<StaffMember>, taskId: Id, staffId: Id)
    ensures Placed(Without(backlog, taskId), Enqueued(staff, taskId, staffId))
         == Placed(backlog, staff)[taskId := if FindStaff(staff, staffId).Some? then 1 else 0]
  {
    var c := if FindStaff(staff, staffId).Some? then 1 else 0;
    EnqueuedQueued(staff, taskId, staffId);
    var b, q := multiset(backlog), Queued(staff);
    assert multiset(Without(backlog, taskId)) == b[taskId := 0];
    assert Queued(Enqueued(staff, taskId, staffId)) == q[taskId := c];
    assert b[taskId := 0] + q[taskId := c] == (b + q)[taskId := c];
  }

  /** `enqueueTaskToStaff` keeps every id placed at most once and the staff ids distinct. */
  lemma EnqueueKeepsValid(backlog: seq<Id>, staff: seq<StaffMember>, taskId: Id, staffId: Id)
    requires AtMostOnce(Placed(backlog, staff)) && DistinctStaff(staff)
    ensures AtMostOnce(Placed(Without(backlog, taskId), Enqueued(staff, taskId, staffId)))
    ensures DistinctStaff(Enqueued(staff, taskId, staffId))
  {
    EnqueuePlacesOnce(backlog, staff, taskId, staffId);
    OnceAfterSet(Placed(backlog, staff), taskId, if FindStaff(staff, staffId).Some? then 1 else 0);
    EnqueuedKeepsIds(staff, taskId, staffId);
  }

  lemma EnqueuedKeepsIds(staff: seq<StaffMember>, taskId: Id, staffId: Id)
    ensures var e := Enqueued(staff, taskId, staffId);
      |e| == |staff| && forall i :: 0 <= i < |e| ==> e[i].id == staff[i].id
  {
    var s := Strip(staff, taskId);
    assert forall i :: 0 <= i < |s| ==> s[i].id == staff[i].id;
  }

  /** Over the queues alone, `enqueueTaskToStaff` sets the id's count to one when the staff member exists and to zero otherwise. */
  lemma EnqueuedQueued(staff: seq<StaffMember>, taskId: Id, staffId: Id)
    ensures Queued(Enqueued(staff, taskId, staffId)) == Queued(staff)[taskId := if FindStaff(staff, staffId).Some? then 1 else 0]
  {
    var s := Strip(staff, taskId);
    QueuedStrip(staff, taskId);
    var q := Queued(staff);
    match FindStaff(staff, staffId)
    case None =>
    case Some(k) =>
      QueuedAppendAt(s, k, taskId);
      assert q[taskId := 0] + multiset{taskId} == q[taskId := 1];
  }

  lemma QueuedAppendAt(staff: seq<StaffMember>, k: nat, id: Id)
    requires k < |staff|
    ensures Queued(staff[k := staff[k].(queue := staff[k].queue + [id])]) == Queued(staff) + multiset{id}
  {
    var t := staff[k].(queue := staff[k].queue + [id]);
    QueuedUpdate(staff, k, t);
    var a, b, c := Queued(staff[k := t]), multiset(staff[k].queue), Queued(staff);
    assert multiset(t.queue) == b + multiset{id};
    assert a + b == c + (b + multiset{id});
    forall x ensures a[x] == (c + multiset{id})[x] {
      assert (a + b)[x] == (c + (b + multiset{id}))[x];
    }
    assert a == c + multiset{id};
  }

  /**
   * `enqueueTaskToStaff` on a known task and an existing staff member: the target queue is
   * its old contents without the id, then the id at the end; every other queue only loses the id.
   */
  lemma EnqueueAppends(staff: seq<StaffMember>, taskId: Id, staffId: Id)
    requires FindStaff(staff, staffId).Some?
    ensures var k := FindStaff(staff, staffId).value;
      var q := Enqueued(staff, taskId, staffId)[k].queue;
      q != [] && q[|q| - 1] == taskId && q[..|q| - 1] == Without(staff[k].queue, taskId)
    ensures forall j :: 0 <= j < |staff| && j != FindStaff(staff, staffId).value ==>
      Enqueued(staff, taskId, staffId)[j] == staff[j].(queue := Without(staff[j].queue, taskId))
  {
    var k := FindStaff(staff, staffId).value;
    var s := Strip(staff, taskId);
    var q := s[k].queue + [taskId];
    assert q[..|q| - 1] == s[k].queue;
  }

  /**
   * `removeStaff` of an existing staff member: their queue goes, order kept, in front of the
   * backlog, so with distinct staff ids no id is lost or duplicated.
   */
  lemma RemoveStaffKeepsPlaced(backlog: seq<Id>, staff: seq<StaffMember>, id: Id)
    requires DistinctStaff(staff) && FindStaff(staff, id).Some?
    ensures Placed(staff[FindStaff(staff, id).value].queue + backlog, DropStaff(staff, id)) == Placed(backlog, staff)
  {
    QueuedDrop(staff, id);
  }

  /** `removeTaskCompletely` leaves the id in no queue and nowhere in the backlog, and every other id where it was. */
  lemma RemovePlacesNowhere(backlog: seq<Id>, staff: seq<StaffMember>, id: Id)
    ensures Placed(Without(backlog, id), Strip(staff, id)) == Placed(backlog, staff)[id := 0]
  {
    QueuedStrip(staff, id);
  }

  lemma StripIdempotent(staff: seq<StaffMember>, id: Id)
    ensures Strip(Strip(staff, id), id) == Strip(staff, id)
  {
    var once := Strip(staff, id);
    forall i | 0 <= i < |staff|
      ensures Strip(once, id)[i] == once[i]
    {
      assert multiset(once[i].queue)[id] == 0;
      assert id !in once[i].queue;
    }
  }

  /**
   * `returnTaskToBacklog` puts the id in the backlog and in no queue; where every id was
   * placed at most once, it is now placed exactly once. Doing it twice is doing it once.
   */
  lemma ReturnIdempotent(backlog: seq<Id>, staff: seq<StaffMember>, id: Id)
    ensures id in Returned(backlog, id)
    ensures Returned(Returned(backlog, id), id) == Returned(backlog, id)
    ensures Strip(Strip(staff, id), id) == Strip(staff, id)
  {
    StripIdempotent(staff, id);
  }

  /** After `returnTaskToBacklog`, an id that was placed at most once is placed exactly once. */
  /** Deleting a task keeps every id placed at most once and the staff ids distinct. */
  lemma RemoveKeepsValid(backlog: seq<Id>, staff: seq<StaffMember>, id: Id)
    requires AtMostOnce(Placed(backlog, staff)) && DistinctStaff(staff)
    ensures AtMostOnce(Placed(Without(backlog, id), Strip(staff, id)))
    ensures DistinctStaff(Strip(staff, id))
  {
    RemovePlacesNowhere(backlog, staff, id);
    OnceAfterSet(Placed(backlog, staff), id, 0);
    StripKeepsStaff(staff, id, id);
  }

  /** Returning a task to the backlog keeps every id placed at most once and the staff ids distinct. */
  lemma ReturnKeepsValid(backlog: seq<Id>, staff: seq<StaffMember>, id: Id)
    requires AtMostOnce(Placed(backlog, staff)) && DistinctStaff(staff)
    ensures AtMostOnce(Placed(Returned(backlog, id), Strip(staff, id)))
    ensures DistinctStaff(Strip(staff, id))
  {
    ReturnPlacesOnce(backlog, staff, id);
    OnceAfterSet(Placed(backlog, staff), id, 1);
    StripKeepsStaff(staff, id, id);
  }

  lemma ReturnPlacesOnce(backlog: seq<Id>, staff: seq<StaffMember>, id: Id)
    requires AtMostOnce(Placed(backlog, staff))
    ensures Placed(Returned(backlog, id), Strip(staff, id)) == Placed(backlog, staff)[id := 1]
  {
    QueuedStrip(staff, id);
    var b, q := multiset(backlog), Queued(staff);
    assert Placed(backlog, staff) == b + q;
    assert Queued(Strip(staff, id)) == q[id := 0];
    assert (b + q)[id] <= 1;
    if id in backlog {
      assert b[id] == 1 && q[id] == 0;
      assert q[id := 0] == q;
      assert b + q == (b + q)[id := 1];
    } else {
      assert b[id] == 0;
      assert multiset([id] + backlog) == b + multiset{id};
      assert b + multiset{id} + q[id := 0] == (b + q)[id := 1];
    }
  }


  // ----- Date axis and horizon -----

  /** `buildDateAxis` gives up once it has looked at more than this many calendar days. */
  const ScanCap := 10000

  /**
   * `buildDateAxis`: the first axis days from `start`, `count` of them unless the scan cap
   * ends the walk first; 10001 calendar days hold at least 7140 weekdays, so every count up
   * to that is met exactly.
   */
  method BuildDateAxis(start: Calendar.Day, count: int, skipWeekends: bool) returns (axis: seq<Calendar.Day>)
    ensures Calendar.IsAxisFrom(axis, start, skipWeekends)
    ensures |axis| <= if count <= 0 then 0 else count
    ensures 0 < count <= 7140 ==> |axis| == count
    ensures !skipWeekends && count > 0 ==> |axis| == if count <= ScanCap + 1 then count else ScanCap + 1
  {
    axis := [];
    var i := 0;
    var cur := start;
    while |axis| < count
      invariant 0 <= i <= ScanCap && cur == start + i
      invariant axis == Calendar.AxisDays(start, i, skipWeekends)
      invariant |axis| <= count || count <= 0
      invariant count <= 0 ==> axis == [] && i == 0
      decreases ScanCap - i
    {
      Calendar.AxisDaysLength(start, i, skipWeekends);
      if Calendar.OnAxis(cur, skipWeekends) {
        axis := axis + [cur];
      }
      cur := cur + 1;
      i := i + 1;
      assert axis == Calendar.AxisDays(start, i, skipWeekends);
      if i > ScanCap {
        break;
      }
    }
    Calendar.AxisDaysIsAxisFrom(start, i, skipWeekends);
    Calendar.AxisDaysAtLeast(start, i, skipWeekends);
  }

  /** `taskById(id)?.mandays || 0`: an unknown id counts as no days. */
  function DaysOf(tasks: seq<Task>, id: Id): int {
    match TaskById(tasks, id)
    case None => 0
    case Some(t) => t.mandays
  }

  /** The days a queue takes: the sum over its ids, unknown ids counting 0. */
  function QueueDays(tasks: seq<Task>, q: seq<Id>): int {
    if q == [] then 0 else QueueDays(tasks, q[..|q| - 1]) + DaysOf(tasks, q[|q| - 1])
  }

  // ----- CSV export -----

  /** An exported task and the staff cell written beside it. */
  datatype Entry = Entry(task: Task, staffName: string)

  /** One exported row: name, days, staff name (empty in the backlog), link (empty when none). */
  function ExportRow(e: Entry): (row: seq<string>)
    ensures |row| == 4 && row[0] == e.task.name && row[2] == e.staffName
  {
    [e.task.name, Text.Decimal(e.task.mandays), e.staffName, e.task.jira.GetOr("")]
  }

  function Rows(es: seq<Entry>): (rows: seq<seq<string>>)
    ensures |rows| == |es| && forall k :: 0 <= k < |es| ==> rows[k] == ExportRow(es[k])
  {
    seq(|es|, k requires 0 <= k < |es| => ExportRow(es[k]))
  }

  /** The entries of one queue: each of its ids that names a task, in queue order. */
  function QueueEntries(tasks: seq<Task>, q: seq<Id>, staffName: string): (es: seq<Entry>)
    ensures forall e :: e in es ==> e.task in tasks && e.staffName == staffName
    ensures forall k :: 0 <= k < |q| && TaskById(tasks, q[k]).Some? ==> Entry(TaskById(tasks, q[k]).value, staffName) in es
  {
    if q == [] then []
    else
      var t := TaskById(tasks, q[|q| - 1]);
      var es := QueueEntries(tasks, q[..|q| - 1], staffName);
      assert forall k :: 0 <= k < |q| - 1 ==> q[..|q| - 1][k] == q[k];
      es + if t.Some? then [Entry(t.value, staffName)] else []
  }

  /** The entries of the staff queues, staff member by staff member. */
  function StaffEntries(tasks: seq<Task>, staff: seq<StaffMember>): (es: seq<Entry>)
    ensures forall e :: e in es ==> e.task in tasks
  {
    if staff == [] then []
    else
      var s := staff[|staff| - 1];
      StaffEntries(tasks, staff[..|staff| - 1]) + QueueEntries(tasks, s.queue, s.name)
  }

  /** The ids of the exported tasks so far (the `seen` set). */
  function SeenIds(es: seq<Entry>): set<Id> {
    set e | e in es :: e.task.id
  }

  /** The tasks not yet exported, in task order, with an empty staff cell. */
  function Unseen(ts: seq<Task>, seen: set<Id>): (es: seq<Entry>)
    ensures forall e :: e in es ==> e.task in ts && e.task.id !in seen
    ensures forall t :: t in ts && t.id !in seen ==> Entry(t, "") in es
  {
    if ts == [] then []
    else
      var t := ts[|ts| - 1];
      var es := Unseen(ts[..|ts| - 1], seen);
      assert forall u :: u in ts ==> u in ts[..|ts| - 1] || u == t;
      es + if t.id in seen then [] else [Entry(t, "")]
  }

  /** What `buildExportRows` lists: the backlog, then each staff queue, then the tasks placed nowhere. */
  function ExportEntries(tasks: seq<Task>, backlog: seq<Id>, staff: seq<StaffMember>): seq<Entry> {
    var placed := QueueEntries(tasks, backlog, "") + StaffEntries(tasks, staff);
    placed + Unseen(tasks, SeenIds(placed))
  }

  /**
   * Every task is exported: each exported row comes from a task of the list, and each task
   * of the list has its id on some row, whatever the backlog and queues hold.
   */
  lemma ExportCoversTasks(tasks: seq<Task>, backlog: seq<Id>, staff: seq<StaffMember>)
    ensures forall e :: e in ExportEntries(tasks, backlog, staff) ==> e.task in tasks
    ensures forall t :: t in tasks ==> exists e :: e in ExportEntries(tasks, backlog, staff) && e.task.id == t.id
  {
    var placed := QueueEntries(tasks, backlog, "") + StaffEntries(tasks, staff);
    var seen := SeenIds(placed);
    var all := ExportEntries(tasks, backlog, staff);
    forall t | t in tasks
      ensures exists e :: e in all && e.task.id == t.id
    {
      if t.id in seen {
        var e :| e in placed && e.task.id == t.id;
        assert e in all;
      } else {
        assert Entry(t, "") in all;
      }
    }
  }

  /** The header line of the export. */
  const Header: seq<string> := ["name", "mandays", "staff", "jira"]

  /** `exportCSV`'s text: the header and the rows, fields escaped, lines joined by CRLF. */
  function ExportCsv(rows: seq<seq<string>>): string {
    Csv.EncodeRows([Header] + rows)
  }

  /** The importer's parser reads an export back row for row, header included. */
  lemma ExportParsesBack(tasks: seq<Task>, backlog: seq<Id>, staff: seq<StaffMember>)
    ensures Csv.Parse(ExportCsv(Rows(ExportEntries(tasks, backlog, staff)))) == [Header] + Rows(ExportEntries(tasks, backlog, staff))
  {
    var all := [Header] + Rows(ExportEntries(tasks, backlog, staff));
    forall k | 0 <= k < |all| ensures Csv.Carried(all[k]) {
      assert |all[k]| == 4;
    }
    Csv.EncodedRowsParse(all);
  }


  // ----- CSV import -----

  predicate IsLowerLetter(c: char) {
    'a' <= c <= 'z'
  }

  /** `h.replace(/[^a-z]/g, '')`. */
  function Letters(s: string): (r: string)
    ensures forall k :: 0 <= k < |r| ==> IsLowerLetter(r[k])
    ensures (forall k :: 0 <= k < |s| ==> IsLowerLetter(s[k])) ==> r == s
  {
    if s == [] then [] else (if IsLowerLetter(s[0]) then [s[0]] else []) + Letters(s[1..])
  }

  /** A header cell as the importer compares it: trimmed, lower-cased, letters only. */
  function NormHeader(h: string): string {
    Letters(Text.ToLower(Text.Trim(h)))
  }

  /** Every header cell, normalised. */
  function NormHeaders(header: seq<string>): (normed: seq<string>)
    ensures |normed| == |header|
    ensures forall k :: 0 <= k < |header| ==> normed[k] == NormHeader(header[k])
  {
    seq(|header|, k requires 0 <= k < |header| => NormHeader(header[k]))
  }

  /** The first index of `hs` holding one of `names`, or -1 (`indexOf`, `findIndex`). */
  function FirstIndex(hs: seq<string>, names: set<string>): (k: int)
    ensures -1 <= k < |hs|
    ensures k >= 0 ==> hs[k] in names && forall j :: 0 <= j < k ==> hs[j] !in names
    ensures k == -1 <==> forall j :: 0 <= j < |hs| ==> hs[j] !in names
  {
    if hs == [] then -1
    else if hs[0] in names then 0
    else
      var k := FirstIndex(hs[1..], names);
      if k == -1 then -1 else k + 1
  }

  /** The header names accepted for the link column. */
  const JiraAliases: set<string> := {"jira", "jiralink", "jiraurl", "url", "link"}

  /** Where the importer reads each field, and the first data row. */
  datatype Columns = Columns(name: int, days: int, staff: int, jira: int, first: nat)

  /**
   * The header mapping: the columns named `name`, `mandays`, `staff` and a link alias,
   * compared after normalising; when neither a name nor a mandays column is found, the first
   * row is data laid out as name, mandays, staff, link.
   */
  function ColumnsOf(header: seq<string>): (c: Columns)
    ensures c.first <= 1
    ensures c.first == 0 <==> "name" !in NormHeaders(header) && "mandays" !in NormHeaders(header)
    ensures c.first == 1 && c.name >= 0 ==> c.name < |header| && NormHeaders(header)[c.name] == "name"
  {
    var normed := NormHeaders(header);
    var name, days := FirstIndex(normed, {"name"}), FirstIndex(normed, {"mandays"});
    if name == -1 && days == -1 then Columns(0, 1, 2, 3, 0)
    else Columns(name, days, FirstIndex(normed, {"staff"}), FirstIndex(normed, JiraAliases), 1)
  }

  /** `(cols[idx] || '').toString().trim()`: a missing cell reads as empty. */
  function Cell(cols: seq<string>, idx: int): string {
    if 0 <= idx < |cols| then Text.Trim(cols[idx]) else ""
  }

  /**
   * `Math.max(1, Math.floor(parseFloat(raw)) || 0)`, given the floor of the number that
   * `parseFloat` reads (None when it reads none): at least one day.
   */
  function ImportedDays(parsed: Option<int>): (d: int)
    ensures d >= 1
    ensures parsed.Some? && parsed.value >= 1 ==> d == parsed.value
  {
    if parsed.Some? && parsed.value >= 1 then parsed.value else 1
  }

  /** What the importer makes of one row: nothing, or a task with the staff cell it names ("" for none). */
  datatype Outcome = Skipped | Imported(task: Task, staffName: string)

  /** The importer on one data row; `parseDays` stands for `Math.floor(parseFloat(·))`. */
  function RowOutcome(cols: seq<string>, c: Columns, id: Id, parseDays: string -> Option<int>): (o: Outcome)
    ensures o.Skipped? <==> Cell(cols, c.name) == []
    ensures o.Imported? ==> o.task.id == id && o.task.name == Cell(cols, c.name) && o.task.mandays >= 1
    ensures o.Imported? ==> o.staffName == Cell(cols, c.staff)
  {
    var name := Cell(cols, c.name);
    var jira := Cell(cols, c.jira);
    if name == "" then Skipped
    else Imported(Task(id, name, ImportedDays(parseDays(Cell(cols, c.days))), if jira == "" then None else Some(jira)),
                  Cell(cols, c.staff))
  }

  /** The tasks the outcomes create, in row order. */
  function NewTasks(os: seq<Outcome>): seq<Task> {
    if os == [] then []
    else NewTasks(os[..|os| - 1]) + if os[|os| - 1].Imported? then [os[|os| - 1].task] else []
  }

  /** How many rows were skipped. */
  function SkipCount(os: seq<Outcome>): nat {
    if os == [] then 0 else SkipCount(os[..|os| - 1]) + if os[|os| - 1].Skipped? then 1 else 0
  }

  /** How many imported tasks went to a staff queue. */
  function QueuedCount(os: seq<Outcome>): nat {
    if os == [] then 0
    else QueuedCount(os[..|os| - 1]) + if os[|os| - 1].Imported? && os[|os| - 1].staffName != "" then 1 else 0
  }

  function TaskIds(ts: seq<Task>): (ids: seq<Id>)
    ensures |ids| == |ts| && forall k :: 0 <= k < |ts| ==> ids[k] == ts[k].id
  {
    seq(|ts|, k requires 0 <= k < |ts| => ts[k].id)
  }

  /** Every data row is either imported or skipped; the queued ones are among the imported. */
  lemma {:induction false} CountsAddUp(os: seq<Outcome>)
    ensures |NewTasks(os)| + SkipCount(os) == |os|
    ensures QueuedCount(os) <= |NewTasks(os)|
  {
    if os != [] {
      CountsAddUp(os[..|os| - 1]);
    }
  }

  /** Every task the importer creates lasts at least a day. */
  lemma {:induction false} NewTasksLast(os: seq<Outcome>)
    requires forall k :: 0 <= k < |os| && os[k].Imported? ==> os[k].task.mandays >= 1
    ensures forall t :: t in NewTasks(os) ==> t.mandays >= 1
  {
    if os != [] {
      NewTasksLast(os[..|os| - 1]);
    }
  }

  /** How staff names are matched: trimmed and lower-cased. */
  function Key(name: string): (key: string)
    ensures key == [] <==> Text.Trim(name) == []
  {
    Text.ToLower(Text.Trim(name))
  }

  /** `staff.find((x) => x.name.trim().toLowerCase() === key)`, as an index. */
  function FindByKey(staff: seq<StaffMember>, key: string): (k: Option<nat>)
    ensures k.Some? ==> k.value < |staff| && Key(staff[k.value].name) == key
    ensures k.Some? ==> forall j :: 0 <= j < k.value ==> Key(staff[j].name) != key
    ensures k.None? <==> forall j :: 0 <= j < |staff| ==> Key(staff[j].name) != key
  {
    var keys := seq(|staff|, j requires 0 <= j < |staff| => Key(staff[j].name));
    assert forall j :: 0 <= j < |staff| ==> (keys[j] in {key} <==> Key(staff[j].name) == key);
    var k := FirstIndex(keys, {key});
    if k == -1 then None else Some(k)
  }

  /** The staff ids and names are those of `before`, possibly followed by new members. */
  ghost predicate StaffExtends(before: seq<StaffMember>, staff: seq<StaffMember>) {
    |before| <= |staff| && forall j :: 0 <= j < |before| ==> staff[j].id == before[j].id && staff[j].name == before[j].name
  }


  lemma RowsSnoc(es: seq<Entry>, e: Entry)
    ensures Rows(es + [e]) == Rows(es) + [ExportRow(e)]
  {
  }

  lemma SeenSnoc(es: seq<Entry>, e: Entry)
    ensures SeenIds(es + [e]) == SeenIds(es) + {e.task.id}
  {
    assert forall x :: x in es + [e] <==> x in es || x == e;
  }

  lemma RowsAppend(es: seq<Entry>, more: seq<Entry>)
    ensures Rows(es + more) == Rows(es) + Rows(more)
  {
  }

  /** One staff member's queue more in the export: its entries follow those of the members before it. */
  lemma ExportAdvance(tasks: seq<Task>, staff: seq<StaffMember>, k: nat, head: seq<Entry>, es: seq<Entry>)
    requires k < |staff| && es == head + StaffEntries(tasks, staff[..k])
    ensures var qe := QueueEntries(tasks, staff[k].queue, staff[k].name);
      && es + qe == head + StaffEntries(tasks, staff[..k + 1])
      && Rows(es + qe) == Rows(es) + Rows(qe)
      && SeenIds(es + qe) == SeenIds(es) + SeenIds(qe)
  {
    var qe := QueueEntries(tasks, staff[k].queue, staff[k].name);
    StaffEntriesSnoc(tasks, staff, k);
    EntriesAssoc(head, StaffEntries(tasks, staff[..k]), qe);
    RowsAppend(es, qe);
    SeenAppend(es, qe);
  }

  lemma StaffEntriesSnoc(tasks: seq<Task>, staff: seq<StaffMember>, k: nat)
    requires k < |staff|
    ensures StaffEntries(tasks, staff[..k + 1]) == StaffEntries(tasks, staff[..k]) + QueueEntries(tasks, staff[k].queue, staff[k].name)
  {
    assert staff[..k + 1][..k] == staff[..k];
  }

  lemma EntriesAssoc(a: seq<Entry>, b: seq<Entry>, c: seq<Entry>)
    ensures (a + b) + c == a + (b + c)
  {
  }

  lemma SeenAppend(es: seq<Entry>, more: seq<Entry>)
    ensures SeenIds(es + more) == SeenIds(es) + SeenIds(more)
  {
    assert forall x :: x in es + more <==> x in es || x in more;
  }

  lemma TaskIdsSnoc(ts: seq<Task>, t: Task)
    ensures TaskIds(ts + [t]) == TaskIds(ts) + [t.id]
  {
  }

  /** The outcomes of the data rows before row `n`, in row order. */
  function OutcomesUpTo(rows: seq<seq<string>>, c: Columns, parseDays: string -> Option<int>, taskId: nat -> Id, n: nat): (os: seq<Outcome>)
    requires c.first <= n <= |rows|
    ensures |os| == n - c.first
    decreases n
  {
    if n == c.first then []
    else OutcomesUpTo(rows, c, parseDays, taskId, n - 1) + [RowOutcome(rows[n - 1], c, taskId(n - 1), parseDays)]
  }

  /** The outcome of data row `r` is the row's own. */
  lemma {:induction false} OutcomeAt(rows: seq<seq<string>>, c: Columns, parseDays: string -> Option<int>, taskId: nat -> Id, n: nat, r: nat)
    requires c.first <= r < n <= |rows|
    ensures OutcomesUpTo(rows, c, parseDays, taskId, n)[r - c.first] == RowOutcome(rows[r], c, taskId(r), parseDays)
    decreases n
  {
    if r < n - 1 {
      OutcomeAt(rows, c, parseDays, taskId, n - 1, r);
    }
  }

  /** All outcomes of an import: one per data row, in row order. */
  function ImportOutcomes(rows: seq<seq<string>>, parseDays: string -> Option<int>, taskId: nat -> Id): (os: seq<Outcome>)
    requires rows != []
    ensures |os| == |rows| - ColumnsOf(rows[0]).first
  {
    OutcomesUpTo(rows, ColumnsOf(rows[0]), parseDays, taskId, |rows|)
  }

  /**
   * The staff and the chosen member after `getOrCreateStaffByName(name)`: nothing for a
   * blank name; otherwise the first member whose name matches case-insensitively after
   * trimming, or else a new member with the trimmed name and an empty queue, appended.
   */
  function GetOrCreate(staff: seq<StaffMember>, name: string, freshId: Id): (seq<StaffMember>, Option<nat>) {
    var key := Key(name);
    if key == [] then (staff, None)
    else match FindByKey(staff, key)
      case Some(k) => (staff, Some(k))
      case None => (staff + [StaffMember(freshId, Text.Trim(name), [])], Some(|staff|))
  }

  /**
   * A non-blank name always yields a member whose name matches it, the first such one; the
   * staff only grow, and no queue changes.
   */
  lemma GetOrCreateFinds(staff: seq<StaffMember>, name: string, freshId: Id)
    ensures var (after, k) := GetOrCreate(staff, name, freshId);
      && (k.None? <==> Text.Trim(name) == [])
      && (k.Some? ==> k.value < |after| && Key(after[k.value].name) == Key(name))
      && (k.Some? ==> forall j :: 0 <= j < k.value ==> Key(after[j].name) != Key(name))
      && StaffExtends(staff, after) && Queued(after) == Queued(staff)
  {
    var key := Key(name);
    if key != [] && FindByKey(staff, key).None? {
      var s := StaffMember(freshId, Text.Trim(name), []);
      QueuedSnoc(staff, s);
      assert multiset(s.queue) == multiset{};
      Text.TrimIdempotent(name);
      assert Key(s.name) == key;
    }
  }

  /** The planner's state as a value. */
  datatype Board = Board(tasks: seq<Task>, backlog: seq<Id>, staff: seq<StaffMember>)

  /**
   * The state after one import outcome: a skipped row changes nothing; an imported task is
   * appended to the tasks and its id goes to the end of the queue of the staff member its
   * row names (found or created), or to the front of the backlog when it names none.
   */
  function Apply(b: Board, o: Outcome, freshId: Id): Board {
    match o
    case Skipped => b
    case Imported(t, staffName) =>
      if staffName == [] then Board(b.tasks + [t], [t.id] + b.backlog, b.staff)
      else
        var (staff, k) := GetOrCreate(b.staff, staffName, freshId);
        if k.None? then Board(b.tasks + [t], [t.id] + b.backlog, staff)
        else Board(b.tasks + [t], b.backlog, staff[k.value := staff[k.value].(queue := staff[k.value].queue + [t.id])])
  }

  /**
   * An import step adds its task once: the tasks grow by it, its id is placed once more and
   * no other id moves; the staff only grow.
   */
  lemma ApplyPlacesOnce(b: Board, o: Outcome, freshId: Id)
    ensures Apply(b, o, freshId).tasks == b.tasks + (if o.Imported? then [o.task] else [])
    ensures Placed(Apply(b, o, freshId).backlog, Apply(b, o, freshId).staff)
         == Placed(b.backlog, b.staff) + (if o.Imported? then multiset{o.task.id} else multiset{})
    ensures StaffExtends(b.staff, Apply(b, o, freshId).staff)
  {
    if o.Imported? {
      var id := o.task.id;
      if o.staffName != [] {
        GetOrCreateFinds(b.staff, o.staffName, freshId);
        var (staff, k) := GetOrCreate(b.staff, o.staffName, freshId);
        if k.Some? {
          QueuedAppendAt(staff, k.value, id);
          PlacedAfterQueueing(b.backlog, b.staff, staff[k.value := staff[k.value].(queue := staff[k.value].queue + [id])], id);
          GetOrCreateGrows(b.staff, o.staffName, freshId);
          EnqueueGrows(b.staff, staff, k.value, id);
        } else {
          PlacedAfterUnshift(b.backlog, b.staff, staff, id);
        }
      } else {
        PlacedAfterUnshift(b.backlog, b.staff, b.staff, id);
      }
    }
  }

  lemma PlacedAfterQueueing(backlog: seq<Id>, staff: seq<StaffMember>, after: seq<StaffMember>, id: Id)
    requires Queued(after) == Queued(staff) + multiset{id}
    ensures Placed(backlog, after) == Placed(backlog, staff) + multiset{id}
  {
  }

  lemma PlacedAfterUnshift(backlog: seq<Id>, staff: seq<StaffMember>, after: seq<StaffMember>, id: Id)
    requires Queued(after) == Queued(staff)
    ensures Placed([id] + backlog, after) == Placed(backlog, staff) + multiset{id}
  {
    assert multiset([id] + backlog) == multiset(backlog) + multiset{id};
  }

  /**
   * `now` is `base` after the outcomes `os`: the new tasks follow the old ones, each new id is
   * placed once more, and the staff only grow.
   */
  ghost predicate ImportedSince(base: Board, now: Board, os: seq<Outcome>) {
    && now.tasks == base.tasks + NewTasks(os)
    && Placed(now.backlog, now.staff) == Placed(base.backlog, base.staff) + multiset(TaskIds(NewTasks(os)))
    && StaffExtends(base.staff, now.staff)
  }

  /** One more import step, with the effect `ApplyPlacesOnce` states, keeps `ImportedSince`. */
  lemma ImportStep(base: Board, now: Board, after: Board, os: seq<Outcome>, o: Outcome)
    requires ImportedSince(base, now, os)
    requires after.tasks == now.tasks + (if o.Imported? then [o.task] else [])
    requires Placed(after.backlog, after.staff)
          == Placed(now.backlog, now.staff) + (if o.Imported? then multiset{o.task.id} else multiset{})
    requires StaffExtends(now.staff, after.staff)
    ensures ImportedSince(base, after, os + [o])
  {
    var added := if o.Imported? then [o.task] else [];
    NewTasksSnoc(os, o);
    IdsAppend(NewTasks(os), added);
    var x := multiset(TaskIds(added));
    if o.Imported? {
      assert TaskIds(added) == [o.task.id];
    } else {
      assert TaskIds(added) == [];
    }
    ConcatChain(base.tasks, now.tasks, after.tasks, NewTasks(os), added);
    SumChain(Placed(base.backlog, base.staff), Placed(now.backlog, now.staff), Placed(after.backlog, after.staff),
             multiset(TaskIds(NewTasks(os))), x);
    StaffExtendsTransitive(base.staff, now.staff, after.staff);
  }

  lemma ConcatChain(t0: seq<Task>, t1: seq<Task>, t2: seq<Task>, n: seq<Task>, added: seq<Task>)
    requires t1 == t0 + n && t2 == t1 + added
    ensures t2 == t0 + (n + added)
  {
  }

  lemma SumChain(p0: multiset<Id>, p1: multiset<Id>, p2: multiset<Id>, m: multiset<Id>, x: multiset<Id>)
    requires p1 == p0 + m && p2 == p1 + x
    ensures p2 == p0 + (m + x)
  {
  }

  lemma IdsAppend(ts: seq<Task>, more: seq<Task>)
    ensures multiset(TaskIds(ts + more)) == multiset(TaskIds(ts)) + multiset(TaskIds(more))
  {
    assert TaskIds(ts + more) == TaskIds(ts) + TaskIds(more);
  }

  lemma StaffExtendsTransitive(a: seq<StaffMember>, b: seq<StaffMember>, c: seq<StaffMember>)
    requires StaffExtends(a, b) && StaffExtends(b, c)
    ensures StaffExtends(a, c)
  {
  }

  lemma NewTasksSnoc(os: seq<Outcome>, o: Outcome)
    ensures NewTasks(os + [o]) == NewTasks(os) + if o.Imported? then [o.task] else []
    ensures SkipCount(os + [o]) == SkipCount(os) + if o.Skipped? then 1 else 0
    ensures QueuedCount(os + [o]) == QueuedCount(os) + if o.Imported? && o.staffName != "" then 1 else 0
  {
    assert (os + [o])[..|os|] == os;
  }

  /** A task whose row names a staff member ends the queue of a member with that name. */
  lemma ApplyQueuesLast(b: Board, o: Outcome, freshId: Id)
    requires o.Imported? && Text.Trim(o.staffName) != []
    ensures Apply(b, o, freshId).backlog == b.backlog
    ensures var after := Apply(b, o, freshId).staff;
      exists k :: 0 <= k < |after| && Key(after[k].name) == Key(o.staffName) &&
                  after[k].queue != [] && after[k].queue[|after[k].queue| - 1] == o.task.id
  {
    GetOrCreateFinds(b.staff, o.staffName, freshId);
    var (staff, k) := GetOrCreate(b.staff, o.staffName, freshId);
    var i := k.value;
    var after := staff[i := staff[i].(queue := staff[i].queue + [o.task.id])];
    AppendedLast(staff, i, o.task.id);
    assert Apply(b, o, freshId).staff == after;
    assert Key(after[i].name) == Key(o.staffName);
  }

  lemma AppendedLast(staff: seq<StaffMember>, i: nat, id: Id)
    requires i < |staff|
    ensures var after := staff[i := staff[i].(queue := staff[i].queue + [id])];
      |after| == |staff| && after[i].name == staff[i].name &&
      after[i].queue != [] && after[i].queue[|after[i].queue| - 1] == id
  {
  }
  /** One more outcome folded in: the state and the counts of the first `k + 1` outcomes. */
  lemma FoldAdvance(base: Board, all: seq<Outcome>, k: nat, o: Outcome, staffId: nat -> Id, first: nat, r: nat,
                    prev: Board, next: Board)
    requires k < |all| && all[k] == o && r == first + k
    requires prev == ApplyAll(base, all[..k], staffId, first) && next == Apply(prev, o, staffId(r))
    ensures next == ApplyAll(base, all[..k + 1], staffId, first)
    ensures NewTasks(all[..k + 1]) == NewTasks(all[..k]) + if o.Imported? then [o.task] else []
    ensures SkipCount(all[..k + 1]) == SkipCount(all[..k]) + if o.Skipped? then 1 else 0
    ensures QueuedCount(all[..k + 1]) == QueuedCount(all[..k]) + if o.Imported? && o.staffName != "" then 1 else 0
  {
    assert all[..k + 1] == all[..k] + [o];
    ApplyAllSnoc(base, all[..k], o, staffId, first);
    NewTasksSnoc(all[..k], o);
  }

  /** The ids an import unshifts onto the backlog: those of rows with a blank staff cell, last row first. */
  function Unshifted(os: seq<Outcome>): seq<Id>
    decreases |os|
  {
    if os == [] then []
    else
      var o := os[|os| - 1];
      (if o.Imported? && Text.Trim(o.staffName) == [] then [o.task.id] else []) + Unshifted(os[..|os| - 1])
  }

  /** Every queue of `before` is a prefix of the queue at the same place in `after`. */
  ghost predicate QueuesGrow(before: seq<StaffMember>, after: seq<StaffMember>) {
    |before| <= |after| && forall j :: 0 <= j < |before| ==> before[j].queue <= after[j].queue
  }

  /**
   * One import step either unshifts its id onto the backlog (a blank staff cell) or leaves
   * the backlog alone, and it only appends to queues.
   */
  lemma ApplyPlaces(b: Board, o: Outcome, freshId: Id)
    ensures Apply(b, o, freshId).backlog ==
      (if o.Imported? && Text.Trim(o.staffName) == [] then [o.task.id] else []) + b.backlog
    ensures QueuesGrow(b.staff, Apply(b, o, freshId).staff)
  {
    if o.Imported? && o.staffName != [] {
      GetOrCreateFinds(b.staff, o.staffName, freshId);
      GetOrCreateGrows(b.staff, o.staffName, freshId);
      var (staff, k) := GetOrCreate(b.staff, o.staffName, freshId);
      if k.Some? {
        EnqueueGrows(b.staff, staff, k.value, o.task.id);
      }
    }
  }

  lemma GetOrCreateGrows(staff: seq<StaffMember>, name: string, freshId: Id)
    ensures StaffExtends(staff, GetOrCreate(staff, name, freshId).0) && QueuesGrow(staff, GetOrCreate(staff, name, freshId).0)
  {
  }

  /** Appending an id to one queue keeps every member's id and name and only lengthens that queue. */
  lemma EnqueueGrows(before: seq<StaffMember>, staff: seq<StaffMember>, i: nat, id: Id)
    requires i < |staff| && StaffExtends(before, staff) && QueuesGrow(before, staff)
    ensures var after := staff[i := staff[i].(queue := staff[i].queue + [id])];
      StaffExtends(before, after) && QueuesGrow(before, after)
  {
    var after := staff[i := staff[i].(queue := staff[i].queue + [id])];
    forall j | 0 <= j < |before| ensures before[j].queue <= after[j].queue {
      assert staff[j].queue <= after[j].queue;
    }
  }

  lemma QueuesGrowTransitive(a: seq<StaffMember>, b: seq<StaffMember>, c: seq<StaffMember>)
    requires QueuesGrow(a, b) && QueuesGrow(b, c)
    ensures QueuesGrow(a, c)
  {
    forall j | 0 <= j < |a| ensures a[j].queue <= c[j].queue {
      assert a[j].queue <= b[j].queue && b[j].queue <= c[j].queue;
    }
  }

  /**
   * The state after the outcomes `os` of the data rows from row `first` on, applied one by one
   * in row order; the row at `first + k` creates its staff member, if any, with id `staffId(first + k)`.
   */
  function ApplyAll(b: Board, os: seq<Outcome>, staffId: nat -> Id, first: nat): Board
    decreases |os|
  {
    if os == [] then b
    else Apply(ApplyAll(b, os[..|os| - 1], staffId, first), os[|os| - 1], staffId(first + |os| - 1))
  }

  lemma ApplyAllSnoc(b: Board, os: seq<Outcome>, o: Outcome, staffId: nat -> Id, first: nat)
    ensures ApplyAll(b, os + [o], staffId, first) == Apply(ApplyAll(b, os, staffId, first), o, staffId(first + |os|))
  {
    var s := os + [o];
    assert s[..|s| - 1] == os && s[|s| - 1] == o;
  }


  /**
   * Where an import puts the new ids: the staffless rows' ids go in front of the old backlog,
   * last row first, and every old queue keeps its contents and order, at most gaining ids at its end.
   */
  lemma {:induction false} ApplyAllPlaces(b: Board, os: seq<Outcome>, staffId: nat -> Id, first: nat)
    ensures ApplyAll(b, os, staffId, first).backlog == Unshifted(os) + b.backlog
    ensures QueuesGrow(b.staff, ApplyAll(b, os, staffId, first).staff)
    decreases |os|
  {
    if os != [] {
      var init, o := os[..|os| - 1], os[|os| - 1];
      var now := ApplyAll(b, init, staffId, first);
      ApplyAllPlaces(b, init, staffId, first);
      ApplyPlaces(now, o, staffId(first + |os| - 1));
      assert init + [o] == os;
      PlacesStep(b, now, Apply(now, o, staffId(first + |os| - 1)), init, o);
    }
  }

  /** An import adds exactly its new tasks, after the old ones, and places each new id once. */
  lemma {:induction false} ApplyAllImported(b: Board, os: seq<Outcome>, staffId: nat -> Id, first: nat)
    ensures ImportedSince(b, ApplyAll(b, os, staffId, first), os)
    decreases |os|
  {
    if os == [] {
      assert TaskIds(NewTasks(os)) == [];
    } else {
      var init, o := os[..|os| - 1], os[|os| - 1];
      var now := ApplyAll(b, init, staffId, first);
      ApplyAllImported(b, init, staffId, first);
      ApplyPlacesOnce(now, o, staffId(first + |os| - 1));
      ImportStep(b, now, ApplyAll(b, os, staffId, first), init, o);
      assert init + [o] == os;
    }
  }

  lemma PlacesStep(b: Board, now: Board, after: Board, init: seq<Outcome>, o: Outcome)
    requires now.backlog == Unshifted(init) + b.backlog && QueuesGrow(b.staff, now.staff)
    requires after.backlog == (if o.Imported? && Text.Trim(o.staffName) == [] then [o.task.id] else []) + now.backlog
    requires QueuesGrow(now.staff, after.staff)
    ensures after.backlog == Unshifted(init + [o]) + b.backlog && QueuesGrow(b.staff, after.staff)
  {
    assert (init + [o])[..|init|] == init;
    QueuesGrowTransitive(b.staff, now.staff, after.staff);
  }

  /** Putting an id that is placed nowhere in front of the backlog keeps every id placed at most once. */
  lemma UnshiftKeepsOnce(backlog: seq<Id>, staff: seq<StaffMember>, id: Id)
    ensures AtMostOnce(Placed(backlog, staff)) && Placed(backlog, staff)[id] == 0 ==>
      AtMostOnce(Placed([id] + backlog, staff))
  {
    PlacedAfterUnshift(backlog, staff, staff, id);
    if AtMostOnce(Placed(backlog, staff)) && Placed(backlog, staff)[id] == 0 {
      OnceAfterAdd(Placed(backlog, staff), id);
    }
  }

  /** A new member with an unused id and an empty queue keeps the staff ids distinct and places nothing. */
  lemma NewMemberKeepsOnce(backlog: seq<Id>, staff: seq<StaffMember>, s: StaffMember)
    requires s.queue == []
    ensures Placed(backlog, staff + [s]) == Placed(backlog, staff)
    ensures DistinctStaff(staff) && FindStaff(staff, s.id).None? ==> DistinctStaff(staff + [s])
  {
    QueuedSnoc(staff, s);
  }

  class State {
    var tasks: seq<Task>
    var backlog: seq<Id>
    var staff: seq<StaffMember>

    /** No task id is in two places (the backlog and the queues together), and staff ids are distinct. */
    ghost predicate Valid()
      reads this
    {
      AtMostOnce(Placed(backlog, staff)) && DistinctStaff(staff)
    }

    /** The default state: no tasks, an empty backlog, no staff. */
    constructor ()
      ensures tasks == [] && backlog == [] && staff == []
      ensures Valid()
    {
      tasks, backlog, staff := [], [], [];
    }

    /**
     * `addTask`: the trimmed name, `max(1, floor(mandays))` days, the trimmed link when it is
     * not blank; the task is appended to the tasks and its id put in front of the backlog.
     * `freshId` stands for the random id, assumed unused.
     */
    method AddTask(name: string, mandays: real, jira: Option<string>, freshId: Id)
      modifies this
      ensures tasks == old(tasks) + [Task(freshId, Text.Trim(name), Clamp(mandays), Text.NonBlankTrimmed(jira))]
      ensures backlog == [freshId] + old(backlog) && staff == old(staff)
      ensures old(Valid()) && old(Placed(backlog, staff))[freshId] == 0 ==> Valid()
    {
      UnshiftKeepsOnce(backlog, staff, freshId);
      var t := Task(freshId, Text.Trim(name), Clamp(mandays), Text.NonBlankTrimmed(jira));
      tasks := tasks + [t];
      backlog := [freshId] + backlog;
    }

    /** The `forEach` that filters `id` out of every staff queue. */
    method StripQueues(id: Id)
      modifies this
      ensures staff == Strip(old(staff), id)
      ensures tasks == old(tasks) && backlog == old(backlog)
    {
      var members := staff;
      var i := 0;
      while i < |members|
        invariant 0 <= i <= |members| == |staff|
        invariant forall j :: 0 <= j < i ==> members[j] == staff[j].(queue := Without(staff[j].queue, id))
        invariant forall j :: i <= j < |members| ==> members[j] == staff[j]
      {
        members := members[i := members[i].(queue := Without(members[i].queue, id))];
        i := i + 1;
      }
      assert forall j :: 0 <= j < |members| ==> members[j] == Strip(staff, id)[j];
      staff := members;
    }

    /** `removeTaskCompletely`: the id leaves the backlog, every queue and the tasks. */
    method RemoveTaskCompletely(taskId: Id)
      modifies this
      ensures backlog == Without(old(backlog), taskId) && staff == Strip(old(staff), taskId)
      ensures tasks == DropTask(old(tasks), taskId)
      ensures old(Valid()) ==> Valid()
    {
      if Valid() {
        RemoveKeepsValid(backlog, staff, taskId);
      }
      backlog := Without(backlog, taskId);
      StripQueues(taskId);
      tasks := DropTask(tasks, taskId);
    }

    /** `addStaff`: a new member with the trimmed name and an empty queue; `freshId` stands for the random id. */
    method AddStaff(name: string, freshId: Id)
      modifies this
      ensures staff == old(staff) + [StaffMember(freshId, Text.Trim(name), [])]
      ensures tasks == old(tasks) && backlog == old(backlog)
      ensures old(Valid()) && FindStaff(old(staff), freshId).None? ==> Valid()
    {
      var s := StaffMember(freshId, Text.Trim(name), []);
      NewMemberKeepsOnce(backlog, staff, s);
      staff := staff + [s];
    }

    /** `removeStaff`: the member's queue goes in front of the backlog and the member is dropped. */
    method RemoveStaff(staffId: Id)
      modifies this
      ensures FindStaff(old(staff), staffId).Some? ==>
        backlog == old(staff)[FindStaff(old(staff), staffId).value].queue + old(backlog)
      ensures FindStaff(old(staff), staffId).None? ==> backlog == old(backlog)
      ensures staff == DropStaff(old(staff), staffId) && tasks == old(tasks)
      ensures old(Valid()) ==> Valid()
    {
      ghost var wasValid := Valid();
      var k := FindStaff(staff, staffId);
      if wasValid {
        DropStaffDistinct(staff, staffId);
      }
      if k.Some? {
        if wasValid {
          RemoveStaffKeepsPlaced(backlog, staff, staffId);
        }
        backlog := staff[k.value].queue + backlog;
      }
      staff := DropStaff(staff, staffId);
    }

    /**
     * `enqueueTaskToStaff`: nothing for an unknown task; otherwise the id leaves the backlog
     * and every queue and, when the staff member exists, is appended to their queue.
     */
    method EnqueueTaskToStaff(taskId: Id, staffId: Id)
      modifies this
      ensures TaskById(old(tasks), taskId).None? ==> backlog == old(backlog) && staff == old(staff)
      ensures TaskById(old(tasks), taskId).Some? ==>
        backlog == Without(old(backlog), taskId) && staff == Enqueued(old(staff), taskId, staffId)
      ensures tasks == old(tasks)
      ensures old(Valid()) ==> Valid()
    {
      if TaskById(tasks, taskId).None? {
        return;
      }
      ghost var wasValid := Valid();
      if wasValid {
        EnqueueKeepsValid(backlog, staff, taskId, staffId);
      }
      ghost var target := Enqueued(staff, taskId, staffId);
      StripKeepsStaff(staff, taskId, staffId);
      backlog := Without(backlog, taskId);
      StripQueues(taskId);
      var k := FindStaff(staff, staffId);
      if k.Some? {
        AppendToQueue(k.value, taskId);
      }
      assert staff == target;
    }

    /** `s.queue.push(id)` on the member at index `k`. */
    method AppendToQueue(k: nat, id: Id)
      requires k < |staff|
      modifies this
      ensures staff == old(staff)[k := old(staff)[k].(queue := old(staff)[k].queue + [id])]
      ensures tasks == old(tasks) && backlog == old(backlog)
    {
      staff := staff[k := staff[k].(queue := staff[k].queue + [id])];
    }

    /** `returnTaskToBacklog`: out of every queue, and in front of the backlog unless already in it. */
    method ReturnTaskToBacklog(taskId: Id)
      modifies this
      ensures staff == Strip(old(staff), taskId) && backlog == Returned(old(backlog), taskId)
      ensures tasks == old(tasks)
      ensures old(Valid()) ==> Valid()
    {
      if Valid() {
        ReturnKeepsValid(backlog, staff, taskId);
      }
      StripQueues(taskId);
      if taskId !in backlog {
        backlog := [taskId] + backlog;
      }
    }
      /** `computeHorizon`: at least 30 days, and five days beyond the longest queue. */
    method ComputeHorizon() returns (h: int)
      ensures h >= 30
      ensures forall k :: 0 <= k < |staff| ==> h >= QueueDays(tasks, staff[k].queue) + 5
      ensures h == 30 || exists k :: 0 <= k < |staff| && h == QueueDays(tasks, staff[k].queue) + 5
    {
      var maxDays := 0;
      for k := 0 to |staff|
        invariant maxDays >= 0
        invariant forall a :: 0 <= a < k ==> maxDays >= QueueDays(tasks, staff[a].queue)
        invariant maxDays == 0 || exists a :: 0 <= a < k && maxDays == QueueDays(tasks, staff[a].queue)
      {
        var q := staff[k].queue;
        var sum := 0;
        for j := 0 to |q|
          invariant sum == QueueDays(tasks, q[..j])
        {
          assert q[..j + 1][..j] == q[..j];
          sum := sum + DaysOf(tasks, q[j]);
        }
        assert q[..|q|] == q;
        if sum > maxDays {
          maxDays := sum;
        }
      }
      h := if 30 > maxDays + 5 then 30 else maxDays + 5;
    }

    /** The rows and the ids of one queue's tasks, in queue order (ids naming no task are passed over). */
    method ExportQueue(q: seq<Id>, staffName: string) returns (rows: seq<seq<string>>, seen: set<Id>)
      ensures rows == Rows(QueueEntries(tasks, q, staffName))
      ensures seen == SeenIds(QueueEntries(tasks, q, staffName))
    {
      ghost var es: seq<Entry> := [];
      seen := {};
      rows := [];
      for j := 0 to |q|
        invariant es == QueueEntries(tasks, q[..j], staffName)
        invariant rows == Rows(es) && seen == SeenIds(es)
      {
        assert q[..j + 1][..j] == q[..j];
        var t := TaskById(tasks, q[j]);
        if t.Some? {
          var e := Entry(t.value, staffName);
          RowsSnoc(es, e);
          SeenSnoc(es, e);
          seen := seen + {q[j]};
          rows := rows + [ExportRow(e)];
          es := es + [e];
        }
      }
      assert q[..|q|] == q;
    }

    /** The rows of the tasks whose ids are not in `seen`, in task order, with an empty staff cell. */
    method ExportUnseen(seen: set<Id>) returns (rows: seq<seq<string>>)
      ensures rows == Rows(Unseen(tasks, seen))
    {
      ghost var es: seq<Entry> := [];
      rows := [];
      for j := 0 to |tasks|
        invariant es == Unseen(tasks[..j], seen)
        invariant rows == Rows(es)
      {
        assert tasks[..j + 1][..j] == tasks[..j];
        var t := tasks[j];
        if t.id !in seen {
          RowsSnoc(es, Entry(t, ""));
          rows := rows + [ExportRow(Entry(t, ""))];
          es := es + [Entry(t, "")];
        }
      }
      assert tasks[..|tasks|] == tasks;
    }

    /** `buildExportRows`: the backlog's tasks, then each staff queue's, then every task placed nowhere. */
    method BuildExportRows() returns (rows: seq<seq<string>>)
      ensures rows == Rows(ExportEntries(tasks, backlog, staff))
    {
      var seen;
      rows, seen := ExportQueue(backlog, "");
      var members := staff;
      ghost var head := QueueEntries(tasks, backlog, "");
      ghost var es := head;
      for k := 0 to |members|
        invariant es == head + StaffEntries(tasks, members[..k])
        invariant rows == Rows(es) && seen == SeenIds(es)
      {
        var more, ids := ExportQueue(members[k].queue, members[k].name);
        ExportAdvance(tasks, members, k, head, es);
        rows := rows + more;
        seen := seen + ids;
        es := es + QueueEntries(tasks, members[k].queue, members[k].name);
      }
      assert members[..|members|] == members;
      var rest := ExportUnseen(seen);
      RowsAppend(es, Unseen(tasks, seen));
      rows := rows + rest;
    }

    /** `getOrCreateStaffByName`; `freshId` stands for the random id of a new member. */
    method StaffByName(name: string, freshId: Id) returns (k: Option<nat>)
      modifies this
      ensures (staff, k) == GetOrCreate(old(staff), name, freshId)
      ensures tasks == old(tasks) && backlog == old(backlog)
    {
      var key := Key(name);
      if key == [] {
        return None;
      }
      var found := FindByKey(staff, key);
      if found.Some? {
        return found;
      }
      staff := staff + [StaffMember(freshId, Text.Trim(name), [])];
      k := Some(|staff| - 1);
    }

    /** The state as a value. */
    ghost function Snapshot(): Board
      reads this
    {
      Board(tasks, backlog, staff)
    }

    /** One data row of `importCSVText`; `staffId` stands for the random id a new staff member gets at row `r`. */
    method ImportRow(cols: seq<string>, c: Columns, r: nat, parseDays: string -> Option<int>,
                     taskId: nat -> Id, staffId: nat -> Id) returns (o: Outcome)
      modifies this
      ensures o == RowOutcome(cols, c, taskId(r), parseDays)
      ensures Snapshot() == Apply(old(Snapshot()), o, staffId(r))
    {
      o := RowOutcome(cols, c, taskId(r), parseDays);
      if o.Skipped? {
        return;
      }
      var t := o.task;
      tasks := tasks + [t];
      if o.staffName != [] {
        var k := StaffByName(o.staffName, staffId(r));
        if k.Some? {
          staff := staff[k.value := staff[k.value].(queue := staff[k.value].queue + [t.id])];
        } else {
          backlog := [t.id] + backlog;
        }
      } else {
        backlog := [t.id] + backlog;
      }
    }

    /** The loop of `importCSVText` over the data rows, from `c.first` on. */
    method ImportRows(rows: seq<seq<string>>, c: Columns, parseDays: string -> Option<int>, taskId: nat -> Id, staffId: nat -> Id)
        returns (imported: nat, queued: nat, skipped: nat)
      requires c.first <= |rows|
      modifies this
      ensures var os := OutcomesUpTo(rows, c, parseDays, taskId, |rows|);
        && imported == |NewTasks(os)| && skipped == SkipCount(os) && queued == QueuedCount(os)
        && Snapshot() == ApplyAll(old(Snapshot()), os, staffId, c.first)
    {
      ghost var base := Snapshot();
      ghost var all := OutcomesUpTo(rows, c, parseDays, taskId, |rows|);
      ghost var k := 0;
      imported, queued, skipped := 0, 0, 0;
      var r := c.first;
      while r < |rows|
        invariant c.first <= r <= |rows| && r == c.first + k && |all| == |rows| - c.first
        invariant imported == |NewTasks(all[..k])| && skipped == SkipCount(all[..k]) && queued == QueuedCount(all[..k])
        invariant Snapshot() == ApplyAll(base, all[..k], staffId, c.first)
      {
        ghost var prev := Snapshot();
        var o := ImportRow(rows[r], c, r, parseDays, taskId, staffId);
        OutcomeAt(rows, c, parseDays, taskId, |rows|, r);
        FoldAdvance(base, all, k, o, staffId, c.first, r, prev, Snapshot());
        if o.Skipped? {
          skipped := skipped + 1;
        } else {
          imported := imported + 1;
          if o.staffName != [] {
            queued := queued + 1;
          }
        }
        r := r + 1;
        k := k + 1;
      }
      assert all[..k] == all;
    }

    /**
     * `importCSVText`: every data row is imported or skipped; a row is skipped exactly when
     * its name cell is blank; the new tasks follow the old ones in row order, and each new id
     * is placed once: at the end of the queue of the staff member its row names (found or
     * created), or else in front of the backlog. `parseDays` stands for
     * `Math.floor(parseFloat(·))`, `taskId` and `staffId` for the random ids made at row `r`.
     */
    method ImportCsvText(text: string, parseDays: string -> Option<int>, taskId: nat -> Id, staffId: nat -> Id)
        returns (imported: nat, queued: nat, skipped: nat)
      modifies this
      ensures Csv.Parse(text) == [] ==>
        imported == 0 && queued == 0 && skipped == 0 &&
        tasks == old(tasks) && backlog == old(backlog) && staff == old(staff)
      ensures Csv.Parse(text) != [] ==>
        var os := ImportOutcomes(Csv.Parse(text), parseDays, taskId);
        && imported + skipped == |os|
        && imported == |NewTasks(os)| && skipped == SkipCount(os) && queued == QueuedCount(os)
        && Snapshot() == ApplyAll(old(Snapshot()), os, staffId, ColumnsOf(Csv.Parse(text)[0]).first)
        && tasks == old(tasks) + NewTasks(os)
        && Placed(backlog, staff) == old(Placed(backlog, staff)) + multiset(TaskIds(NewTasks(os)))
        && StaffExtends(old(staff), staff)
        && backlog == Unshifted(os) + old(backlog) && QueuesGrow(old(staff), staff)
    {
      var rows := Csv.ParseCsv(text);
      if rows == [] {
        return 0, 0, 0;
      }
      var c := ColumnsOf(rows[0]);
      ghost var base := Snapshot();
      imported, queued, skipped := ImportRows(rows, c, parseDays, taskId, staffId);
      ghost var os := ImportOutcomes(rows, parseDays, taskId);
      CountsAddUp(os);
      ApplyAllImported(base, os, staffId, c.first);
      ApplyAllPlaces(base, os, staffId, c.first);
    }
  }
}
