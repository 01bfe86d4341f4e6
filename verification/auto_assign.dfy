/**
 * Automatic assignment of the backlog (`useAutoAssign` in apps/web/src/shared/hooks/hooks.ts):
 * list scheduling that sends each backlog task, in backlog order, to the end of the queue of
 * the staff member with the least work so far, ties going to the earliest staff member.
 */
module AutoAssign {
  import Types

  type Id = Types.Id

  /** The move the hook requests: the task to the end of that staff member's queue (both neighbours null). */
  datatype Assignment = Assignment(taskId: Id, staffId: Id)

  /** `tasks.reduce((sum, task) => sum + task.mandays, 0)`. */
  function Days(ts: seq<Types.Task>): int {
    if ts == [] then 0 else Days(ts[..|ts| - 1]) + ts[|ts| - 1].mandays
  }

  function Sum(w: seq<int>): int {
    if w == [] then 0 else Sum(w[..|w| - 1]) + w[|w| - 1]
  }

  /**
   * `staffWorkloads.reduce((min, curr) => curr.workload < min.workload ? curr : min)`, as an
   * index: a least workload, the earliest one among equals.
   */
  function LeastLoaded(w: seq<int>): (k: nat)
    requires w != []
    ensures k < |w|
  {
    if |w| == 1 then 0
    else
      var k := LeastLoaded(w[..|w| - 1]);
      if w[|w| - 1] < w[k] then |w| - 1 else k
  }

  /** `LeastLoaded` picks a least workload, and the earliest one among equals. */
  lemma {:induction false} LeastLoadedIsLeast(w: seq<int>)
    requires w != []
    ensures var k := LeastLoaded(w);
      && (forall j :: 0 <= j < |w| ==> w[k] <= w[j])
      && (forall j :: 0 <= j < k ==> w[j] > w[k])
  {
    if |w| > 1 {
      var p := w[..|w| - 1];
      LeastLoadedIsLeast(p);
      assert forall j :: 0 <= j < |p| ==> p[j] == w[j];
    }
  }

  /** The workloads after greedily assigning `ts`, in order, from the workloads `w0`. */
  function Loads(w0: seq<int>, ts: seq<Types.Task>): (w: seq<int>)
    requires w0 != []
    ensures |w| == |w0|
  {
    if ts == [] then w0
    else
      var w := Loads(w0, ts[..|ts| - 1]);
      var k := LeastLoaded(w);
      w[k := w[k] + ts[|ts| - 1].mandays]
  }

  /** The moves of the greedy plan for `ts`, each task to the least-loaded member just before it. */
  function Plan(staff: seq<Types.Staff>, w0: seq<int>, ts: seq<Types.Task>): (ms: seq<Assignment>)
    requires |w0| == |staff| && staff != []
    ensures |ms| == |ts|
  {
    if ts == [] then []
    else
      var n := |ts| - 1;
      Plan(staff, w0, ts[..n]) + [Assignment(ts[n].id, staff[LeastLoaded(Loads(w0, ts[..n]))].id)]
  }

  // ----- properties of the greedy plan -----

  /** The move for the task at position `i` names the least-loaded staff member just before it. */
  lemma {:induction false} PlanAt(staff: seq<Types.Staff>, w0: seq<int>, ts: seq<Types.Task>, i: nat)
    requires |w0| == |staff| && staff != [] && i < |ts|
    ensures Plan(staff, w0, ts)[i] == Assignment(ts[i].id, staff[LeastLoaded(Loads(w0, ts[..i]))].id)
  {
    var n := |ts| - 1;
    if i < n {
      PlanAt(staff, w0, ts[..n], i);
      assert ts[..n][..i] == ts[..i];
    }
  }

  /**
   * Each task, in backlog order, goes to a staff member whose workload just before it is the
   * least, and who comes first among the staff with that workload.
   */
  lemma PlanPicksLeast(staff: seq<Types.Staff>, w0: seq<int>, ts: seq<Types.Task>, i: nat)
    requires |w0| == |staff| && staff != [] && i < |ts|
    ensures var w := Loads(w0, ts[..i]);
      exists k :: 0 <= k < |staff|
        && Plan(staff, w0, ts)[i] == Assignment(ts[i].id, staff[k].id)
        && (forall j :: 0 <= j < |w| ==> w[k] <= w[j])
        && (forall j :: 0 <= j < k ==> w[j] > w[k])
  {
    PlanAt(staff, w0, ts, i);
    LeastLoadedIsLeast(Loads(w0, ts[..i]));
    var k := LeastLoaded(Loads(w0, ts[..i]));
    assert Plan(staff, w0, ts)[i] == Assignment(ts[i].id, staff[k].id);
  }

  /** Assigning one more task extends the plan by that one step. */
  lemma {:induction false} PlanSnoc(staff: seq<Types.Staff>, w0: seq<int>, ts: seq<Types.Task>, t: Types.Task)
    requires |w0| == |staff| && staff != []
    ensures var w, k := Loads(w0, ts), LeastLoaded(Loads(w0, ts));
      && Loads(w0, ts + [t]) == w[k := w[k] + t.mandays]
      && Plan(staff, w0, ts + [t]) == Plan(staff, w0, ts) + [Assignment(t.id, staff[k].id)]
  {
    assert (ts + [t])[..|ts|] == ts;
  }

  /** One step changes only the chosen staff member's workload, by exactly the task's days. */
  lemma {:induction false} LoadsStep(w0: seq<int>, ts: seq<Types.Task>, t: Types.Task)
    requires w0 != []
    ensures var before, after, k := Loads(w0, ts), Loads(w0, ts + [t]), LeastLoaded(Loads(w0, ts));
      && after[k] == before[k] + t.mandays
      && forall j :: 0 <= j < |before| && j != k ==> after[j] == before[j]
  {
    assert (ts + [t])[..|ts|] == ts;
  }

  lemma {:induction false} SumUpdate(w: seq<int>, k: nat, d: int)
    requires k < |w|
    ensures Sum(w[k := w[k] + d]) == Sum(w) + d
  {
    var n := |w| - 1;
    var u := w[k := w[k] + d];
    assert u[..n] == if k < n then w[..n][k := w[k] + d] else w[..n];
    if k < n {
      SumUpdate(w[..n], k, d);
    }
  }

  /** The total work after the assignment is the work before plus the days of the assigned tasks. */
  lemma {:induction false} LoadsTotal(w0: seq<int>, ts: seq<Types.Task>)
    requires w0 != []
    ensures Sum(Loads(w0, ts)) == Sum(w0) + Days(ts)
  {
    if ts != [] {
      var n := |ts| - 1;
      LoadsTotal(w0, ts[..n]);
      var w := Loads(w0, ts[..n]);
      SumUpdate(w, LeastLoaded(w), ts[n].mandays);
    }
  }

  // ----- the hook -----

  /**
   * The loop of `autoAssign`: from the workloads `w0` of the staff, each backlog task in turn
   * goes to the least-loaded member, whose workload grows by the task's days.
   */
  method AssignInOrder(staff: seq<Types.Staff>, w0: seq<int>, backlog: seq<Types.Task>)
      returns (moves: seq<Assignment>, workloads: seq<int>)
    requires staff != [] && |w0| == |staff|
    ensures moves == Plan(staff, w0, backlog) && workloads == Loads(w0, backlog)
  {
    workloads := w0;
    moves := [];
    ghost var done: seq<Types.Task> := [];
    for i := 0 to |backlog|
      invariant done == backlog[..i]
      invariant workloads == Loads(w0, done) && moves == Plan(staff, w0, done)
    {
      PlanSnoc(staff, w0, done, backlog[i]);
      var k := LeastLoaded(workloads);
      moves := moves + [Assignment(backlog[i].id, staff[k].id)];
      workloads := workloads[k := workloads[k] + backlog[i].mandays];
      done := done + [backlog[i]];
    }
    assert backlog[..|backlog|] == backlog;
  }

  /**
   * `autoAssign`: nothing when there are no staff or no backlog tasks; otherwise each staff
   * member starts with the days of their queue, and each backlog task, in order, is moved to
   * the end of the queue of the least-loaded member, whose workload then grows by the task's
   * days. `queues[j]` is what `listTasksFor(staff[j].id)` returns.
   */
  method AutoAssignBacklog(staff: seq<Types.Staff>, queues: seq<seq<Types.Task>>, backlog: seq<Types.Task>)
      returns (moves: seq<Assignment>, workloads: seq<int>)
    requires |queues| == |staff|
    ensures staff == [] || backlog == [] ==> moves == []
    ensures staff != [] && backlog != [] ==>
      var w0 := seq(|staff|, j requires 0 <= j < |staff| => Days(queues[j]));
      && moves == Plan(staff, w0, backlog)
      && workloads == Loads(w0, backlog)
      && Sum(workloads) == Sum(w0) + Days(backlog)
  {
    if staff == [] || backlog == [] {
      return [], [];
    }
    var w0 := seq(|staff|, j requires 0 <= j < |staff| => Days(queues[j]));
    moves, workloads := AssignInOrder(staff, w0, backlog);
    LoadsTotal(w0, backlog);
  }
}
