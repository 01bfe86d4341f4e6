/**
 * The task routes of the API server (apps/api/src/server.ts) over an abstract database:
 * tasks, staff, assignments and each user's current project. Every route acts only on the
 * caller's tasks and staff in their current project; anything else is "not found".
 */
module ServerApi {
  import opened Wrappers
  import opened KeySpace
  import Text
  import Themes

  type UserId = string
  type ProjectId = string

  datatype TaskRow = TaskRow(owner: UserId, project: ProjectId, name: string, mandays: int,
                             jiraUrl: Option<string>, theme: Option<string>)

  datatype StaffRow = StaffRow(owner: UserId, project: ProjectId, name: string)

  /** 400 from request validation, 400 for a missing current project, 404. */
  datatype Error = ValidationError | NoProject | NotFound

  /** Which assignments a `GET /api/tasks` reads. */
  datatype Listing = ByStaff(staff: StaffId) | Unassigned | AllTasks

  /** `staff_id` when it is a non-empty string, else `unassigned` when it is "true", else every task. */
  function ListingOf(staffParam: Option<string>, unassignedParam: Option<string>): (l: Listing)
    ensures l.ByStaff? <==> staffParam.Some? && staffParam.value != ""
    ensures l.Unassigned? <==> (staffParam.None? || staffParam.value == "") && unassignedParam == Some("true")
  {
    if staffParam.Some? && staffParam.value != "" then ByStaff(staffParam.value)
    else if unassignedParam == Some("true") then Unassigned
    else AllTasks
  }

  function QueueKey(l: Listing): Option<StaffId>
    requires !l.AllTasks?
  {
    if l.ByStaff? then Some(l.staff) else None
  }

  class Server {
    var tasks: map<TaskId, TaskRow>
    var staff: map<StaffId, StaffRow>
    var assignments: Table
    var currentProject: map<UserId, ProjectId>

    /** Every task has exactly one assignment, and an assignment names an existing staff member or the backlog. */
    ghost predicate Valid()
      reads this
    {
      && assignments.Keys == tasks.Keys
      && forall id :: id in assignments && assignments[id].staff.Some? ==> assignments[id].staff.value in staff
    }

    predicate OwnsTask(user: UserId, id: TaskId)
      reads this
    {
      id in tasks && user in currentProject && tasks[id].owner == user && tasks[id].project == currentProject[user]
    }

    predicate OwnsStaff(user: UserId, id: StaffId)
      reads this
    {
      id in staff && user in currentProject && staff[id].owner == user && staff[id].project == currentProject[user]
    }

    /** The caller's tasks in their current project: what the task queries of the routes find. */
    function OwnedTasks(user: UserId): (found: map<TaskId, TaskRow>)
      reads this
      ensures forall id :: id in found <==> OwnsTask(user, id)
    {
      map id | id in tasks && OwnsTask(user, id) :: tasks[id]
    }

    /**
     * `POST /api/tasks`: validate, require a current project, create the task and give it
     * an assignment at the end of the backlog (1024 above the backlog's maximum, over all
     * users' backlog assignments). `freshId` stands for the id the database generates.
     */
    method CreateTask(user: UserId, name: string, mandays: int, jiraUrl: Option<string>, theme: Option<string>,
                      freshId: TaskId) returns (r: Result<TaskId, Error>)
      requires Valid() && freshId !in tasks
      modifies this
      ensures Valid()
      ensures staff == old(staff) && currentProject == old(currentProject)
      ensures r == Err(ValidationError) <==> Text.IsBlank(name) || mandays < 1
      ensures r == Err(NoProject) <==> !Text.IsBlank(name) && mandays >= 1 && user !in currentProject
      ensures r.Err? ==> tasks == old(tasks) && assignments == old(assignments)
      ensures r.Ok? ==> (r.value == freshId &&
        tasks == old(tasks)[freshId := TaskRow(user, currentProject[user], Text.Trim(name), mandays,
                                               Text.NonBlankTrimmed(jiraUrl), Text.NonBlankTrimmed(theme))])
      ensures r.Ok? ==> (freshId in assignments && assignments[freshId].staff.None? &&
        assignments == old(assignments)[freshId := assignments[freshId]])
      ensures r.Ok? ==> forall b :: IsQueue(old(assignments), None, b) ==> IsQueue(assignments, None, b + [freshId])
      ensures r.Ok? && (forall id :: !InQueue(old(assignments), None, id)) ==> assignments[freshId].position == 1024.0
    {
      var trimmed := Text.Trim(name);
      if trimmed == [] || mandays < 1 {
        return Err(ValidationError);
      }
      if user !in currentProject {
        return Err(NoProject);
      }
      InsertTask(freshId, TaskRow(user, currentProject[user], trimmed, mandays,
                                  Text.NonBlankTrimmed(jiraUrl), Text.NonBlankTrimmed(theme)));
      r := Ok(freshId);
    }

    /** The transaction of `POST /api/tasks`: create the task, then its assignment 1024 above the backlog maximum. */
    method InsertTask(id: TaskId, row: TaskRow)
      requires Valid() && id !in tasks
      modifies this
      ensures Valid()
      ensures staff == old(staff) && currentProject == old(currentProject)
      ensures tasks == old(tasks)[id := row]
      ensures id in assignments && assignments[id].staff.None?
      ensures assignments == old(assignments)[id := assignments[id]]
      ensures forall b :: IsQueue(old(assignments), None, b) ==> IsQueue(assignments, None, b + [id])
      ensures (forall t :: !InQueue(old(assignments), None, t)) ==> assignments[id].position == 1024.0
    {
      tasks := tasks[id := row];
      var base := MaxPosition(assignments, None);
      AppendToBacklogAll(assignments, base, id);
      assignments := assignments[id := Assignment(None, NextPosition(base))];
    }

    /**
     * `POST /api/assignments/move`: 404 unless the task, and the target staff member when
     * one is named, belong to the caller's current project; otherwise the task gets the
     * target queue and the key `MoveKey` computes. Nothing is written on an error.
     */
    method MoveTask(user: UserId, taskId: TaskId, target: Option<StaffId>,
                    beforeId: Option<TaskId>, afterId: Option<TaskId>) returns (r: Result<Assignment, Error>)
      requires Valid()
      modifies this
      ensures Valid()
      ensures tasks == old(tasks) && staff == old(staff) && currentProject == old(currentProject)
      ensures r == Err(ValidationError) <==>
        taskId == "" || target == Some("") || beforeId == Some("") || afterId == Some("")
      ensures r != Err(NoProject)
      ensures r.Err? <==> (taskId == "" || target == Some("") || beforeId == Some("") || afterId == Some("") ||
        !OwnsTask(user, taskId) || (target.Some? && !OwnsStaff(user, target.value)))
      ensures r.Err? ==> assignments == old(assignments)
      ensures r.Ok? ==> r.value.staff == target && assignments == old(assignments)[taskId := r.value]
      ensures r.Ok? ==>
        var b := NeighbourKey(old(assignments), beforeId); var a := NeighbourKey(old(assignments), afterId);
        var p := r.value.position;
        && (b.Some? && a.Some? ==> p == (b.value + a.value) / 2.0)
        && (b.Some? && a.None? ==> p == b.value + 1.0)
        && (b.None? && a.Some? ==> p == a.value - 1.0)
        && (b.None? && a.None? ==> IsMaxPosition(old(assignments), target, p - Gap))
    {
      if taskId == "" || target == Some("") || beforeId == Some("") || afterId == Some("") {
        return Err(ValidationError);
      }
      if !OwnsTask(user, taskId) {
        return Err(NotFound);
      }
      if target.Some? && !OwnsStaff(user, target.value) {
        return Err(NotFound);
      }
      var p := MoveKey(assignments, target, beforeId, afterId);
      var updated := Assignment(target, p);
      assignments := assignments[taskId := updated];
      r := Ok(updated);
    }

    /**
     * `DELETE /api/staff/:id`: 404 unless the staff member belongs to the caller's current
     * project; otherwise their queue, read in key order (`moved`), is re-keyed onto the
     * end of the backlog and the staff member is deleted.
     */
    method DeleteStaff(user: UserId, id: StaffId) returns (r: Result<(), Error>, ghost moved: seq<TaskId>)
      requires Valid()
      modifies this
      ensures Valid()
      ensures tasks == old(tasks) && currentProject == old(currentProject)
      ensures r.Err? <==> !old(OwnsStaff(user, id))
      ensures r.Err? ==> r == Err(NotFound) && staff == old(staff) && assignments == old(assignments)
      ensures r.Ok? ==> staff == old(staff) - {id}
      ensures r.Ok? ==> IsQueue(old(assignments), Some(id), moved)
      ensures r.Ok? ==> forall b :: IsQueue(old(assignments), None, b) ==> IsQueue(assignments, None, b + moved)
      ensures r.Ok? ==> forall t, qt :: t != id && IsQueue(old(assignments), Some(t), qt) ==> IsQueue(assignments, Some(t), qt)
      ensures r.Ok? ==> exists base :: IsMaxPosition(old(assignments), None, base) && Rekeyed(old(assignments), moved, base, assignments)
    {
      moved := [];
      if !OwnsStaff(user, id) {
        return Err(NotFound), moved;
      }
      var q, m' := MoveQueueToBacklog(assignments, id, staff.Keys);
      moved := q;
      assignments := m';
      staff := staff - {id};
      r := Ok(());
    }

    /**
     * `GET /api/tasks`: nothing without a current project; for a staff or backlog listing,
     * the queue read in key order (`order`) joined to the caller's tasks; otherwise every
     * task of the caller's current project, in no particular order.
     */
    method ListTasks(user: UserId, staffParam: Option<string>, unassignedParam: Option<string>)
      returns (r: seq<TaskId>, ghost order: seq<TaskId>)
      ensures user !in currentProject ==> r == []
      ensures user in currentProject && !ListingOf(staffParam, unassignedParam).AllTasks? ==>
        IsQueue(assignments, QueueKey(ListingOf(staffParam, unassignedParam)), order) &&
        r == Join(OwnedTasks(user), order)
      ensures user in currentProject && ListingOf(staffParam, unassignedParam).AllTasks? ==>
        Distinct(r) && forall id :: id in r <==> OwnsTask(user, id)
    {
      order := [];
      if user !in currentProject {
        return [], order;
      }
      var listing := ListingOf(staffParam, unassignedParam);
      if !listing.AllTasks? {
        var q := QueueOf(assignments, QueueKey(listing));
        order := q;
        r := Join(OwnedTasks(user), q);
      } else {
        r := [];
        var rest := tasks.Keys;
        while rest != {}
          invariant rest <= tasks.Keys
          invariant Distinct(r)
          invariant forall id :: id in r <==> id !in rest && OwnsTask(user, id)
          decreases |rest|
        {
          var id :| id in rest;
          rest := rest - {id};
          if OwnsTask(user, id) {
            r := r + [id];
          }
        }
      }
    }
    /**
     * `GET /api/themes/summary`: nothing without a current project, otherwise the summary of
     * `groups`, the database's per-theme groups of the caller's tasks in that project.
     */
    method ThemesSummary(user: UserId, groups: seq<Themes.Group>) returns (r: seq<Themes.Item>)
      ensures user !in currentProject ==> r == []
      ensures user in currentProject ==> Themes.SortedByTotal(r) && multiset(r) == multiset(Themes.Themed(groups))
      ensures user in currentProject ==> forall v :: Themes.WithTotal(r, v) == Themes.WithTotal(Themes.Themed(groups), v)
    {
      if user !in currentProject {
        return [];
      }
      r := Themes.Summary(groups);
      Themes.SummaryIsSortedThemed(groups, 0);
      forall v ensures Themes.WithTotal(r, v) == Themes.WithTotal(Themes.Themed(groups), v) {
        Themes.SummaryIsSortedThemed(groups, v);
      }
    }
  }

  /**
   * A staff or backlog listing comes back in ascending key order, without repeats, and
   * holds exactly the caller's tasks in that queue: ids with no matching task are dropped.
   */
  lemma ListingInKeyOrder(m: Table, s: Option<StaffId>, order: seq<TaskId>, found: map<TaskId, TaskRow>)
    requires IsQueue(m, s, order)
    ensures Distinct(Join(found, order)) && Sorted(m, Join(found, order))
    ensures forall id :: id in Join(found, order) <==> InQueue(m, s, id) && id in found
  {
    JoinKeepsOrder(m, found, order);
  }
}
