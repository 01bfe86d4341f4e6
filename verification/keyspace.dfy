/**
 * The ordering-key engine of the API (apps/api/src/server.ts and api/index.ts). Every task
 * has one assignment: the queue it sits in (a staff member, or the backlog) and a numeric
 * position. A queue is read by ordering its assignments by position. New positions are
 * made by appending 1024 above the queue's maximum, by taking the midpoint of two
 * neighbours, or by stepping one away from a single neighbour.
 */
module KeySpace {
  import opened Wrappers

  type TaskId = string
  type StaffId = string

  /** Where a task sits: a staff member's queue, or the backlog (`None`), and its key there. */
  datatype Assignment = Assignment(staff: Option<StaffId>, position: real)

  /** The assignment table, keyed by task id (one assignment per task). */
  type Table = map<TaskId, Assignment>

  /** The gap `nextPosition` leaves above a queue's maximum. */
  const Gap: real := 1024.0

  /** `nextPosition`: a key 1024 above `base`. */
  function NextPosition(base: real): (r: real)
    ensures r > base
  {
    base + Gap
  }

  predicate InQueue(m: Table, s: Option<StaffId>, id: TaskId) {
    id in m && m[id].staff == s
  }

  /** What `maxPosition(s)` returns: the largest key in queue `s`, or 0 when it is empty. */
  ghost predicate IsMaxPosition(m: Table, s: Option<StaffId>, r: real) {
    if exists id :: InQueue(m, s, id) then
      (exists id :: InQueue(m, s, id) && m[id].position == r) &&
      (forall id :: InQueue(m, s, id) ==> m[id].position <= r)
    else
      r == 0.0
  }

  /** `maxPosition`: the key of the last assignment of queue `s` (ORDER BY position DESC, first row). */
  method MaxPosition(m: Table, s: Option<StaffId>) returns (r: real)
    ensures IsMaxPosition(m, s, r)
  {
    var found := false;
    r := 0.0;
    var rest := m.Keys;
    while rest != {}
      invariant rest <= m.Keys
      invariant found <==> exists id :: id !in rest && InQueue(m, s, id)
      invariant found ==> exists id :: id !in rest && InQueue(m, s, id) && m[id].position == r
      invariant found ==> forall id :: id !in rest && InQueue(m, s, id) ==> m[id].position <= r
      invariant !found ==> r == 0.0
      decreases |rest|
    {
      var id :| id in rest;
      rest := rest - {id};
      if m[id].staff == s && (!found || m[id].position > r) {
        r := m[id].position;
        found := true;
      }
    }
  }

  predicate Distinct<T(==)>(q: seq<T>) {
    forall i, j :: 0 <= i < j < |q| ==> q[i] != q[j]
  }

  /** `q` lists tasks of the table in non-decreasing key order. */
  ghost predicate Sorted(m: Table, q: seq<TaskId>) {
    && (forall i :: 0 <= i < |q| ==> q[i] in m)
    && (forall i, j :: 0 <= i < j < |q| ==> m[q[i]].position <= m[q[j]].position)
  }

  /**
   * `q` is queue `s` as the database lists it ordered by position: each of its tasks once,
   * in non-decreasing key order. Equal keys may come in either order.
   */
  ghost predicate IsQueue(m: Table, s: Option<StaffId>, q: seq<TaskId>) {
    && Distinct(q)
    && (forall id :: id in q <==> InQueue(m, s, id))
    && Sorted(m, q)
  }

  /** Two sequences without repeats and without a common element concatenate to one without repeats. */
  lemma DistinctConcat<T>(a: seq<T>, b: seq<T>)
    requires Distinct(a) && Distinct(b)
    requires forall x :: x in a ==> x !in b
    ensures Distinct(a + b)
  {
    var c := a + b;
    forall i, j | 0 <= i < j < |c|
      ensures c[i] != c[j]
    {
      if j >= |a| {
        assert c[j] == b[j - |a|];
        if i < |a| {
          assert c[i] in a;
        } else {
          assert c[i] == b[i - |a|];
        }
      }
    }
  }

  /** Inserting a new element into a sequence without repeats: still no repeats, and just that element added. */
  lemma InsertDistinct<T>(q: seq<T>, x: T, i: nat)
    requires Distinct(q) && x !in q && i <= |q|
    ensures Distinct(q[..i] + [x] + q[i..])
    ensures forall y :: y in q[..i] + [x] + q[i..] <==> y in q || y == x
  {
    var r := q[..i] + [x] + q[i..];
    assert forall k :: 0 <= k < |r| ==> r[k] == if k < i then q[k] else if k == i then x else q[k - 1];
    forall y | y in q
      ensures y in r
    {
      var k :| 0 <= k < |q| && q[k] == y;
      assert y == if k < i then r[k] else r[k + 1];
    }
  }

  /** Where a key goes in a sorted queue: after every key not above it. */
  method InsertionIndex(m: Table, q: seq<TaskId>, p: real) returns (i: nat)
    requires Sorted(m, q)
    ensures i <= |q|
    ensures forall j :: 0 <= j < i ==> m[q[j]].position <= p
    ensures forall j :: i <= j < |q| ==> m[q[j]].position > p
  {
    i := 0;
    while i < |q| && m[q[i]].position <= p
      invariant i <= |q|
      invariant forall j :: 0 <= j < i ==> m[q[j]].position <= p
    {
      i := i + 1;
    }
  }

  lemma InsertSorted(m: Table, q: seq<TaskId>, id: TaskId, i: nat)
    requires Sorted(m, q) && id in m && i <= |q|
    requires forall j :: 0 <= j < i ==> m[q[j]].position <= m[id].position
    requires forall j :: i <= j < |q| ==> m[q[j]].position >= m[id].position
    ensures Sorted(m, q[..i] + [id] + q[i..])
  {
    var r := q[..i] + [id] + q[i..];
    assert forall j :: 0 <= j < |r| ==> r[j] == if j < i then q[j] else if j == i then id else q[j - 1];
  }

  /** The loop of `QueueOf` so far: `q` is queue `s` restricted to the tasks outside `rest`. */
  ghost predicate QueueSoFar(m: Table, s: Option<StaffId>, q: seq<TaskId>, rest: set<TaskId>) {
    && Distinct(q)
    && (forall id :: id in q <==> id !in rest && InQueue(m, s, id))
    && Sorted(m, q)
  }

  /** Inserting a task of queue `s` at its insertion index keeps `QueueSoFar`. */
  lemma QueueInsertStep(m: Table, s: Option<StaffId>, q: seq<TaskId>, rest: set<TaskId>, id: TaskId, i: nat)
    requires rest <= m.Keys && id in rest && m[id].staff == s && QueueSoFar(m, s, q, rest)
    requires i <= |q|
    requires forall j :: 0 <= j < i ==> m[q[j]].position <= m[id].position
    requires forall j :: i <= j < |q| ==> m[q[j]].position > m[id].position
    ensures QueueSoFar(m, s, q[..i] + [id] + q[i..], rest - {id})
  {
    InsertSorted(m, q, id, i);
    InsertDistinct(q, id, i);
  }

  /** Passing over a task of another queue keeps `QueueSoFar`. */
  lemma QueueSkipStep(m: Table, s: Option<StaffId>, q: seq<TaskId>, rest: set<TaskId>, id: TaskId)
    requires rest <= m.Keys && id in rest && m[id].staff != s && QueueSoFar(m, s, q, rest)
    ensures QueueSoFar(m, s, q, rest - {id})
  {
  }

  /** The assignments of queue `s`, ordered by position (ORDER BY position ASC). */
  method QueueOf(m: Table, s: Option<StaffId>) returns (q: seq<TaskId>)
    ensures IsQueue(m, s, q)
  {
    q := [];
    var rest := m.Keys;
    while rest != {}
      invariant rest <= m.Keys
      invariant QueueSoFar(m, s, q, rest)
      decreases |rest|
    {
      var id :| id in rest;
      if m[id].staff == s {
        var i := InsertionIndex(m, q, m[id].position);
        QueueInsertStep(m, s, q, rest, id, i);
        q := q[..i] + [id] + q[i..];
      } else {
        QueueSkipStep(m, s, q, rest, id);
      }
      rest := rest - {id};
    }
  }

  /** A neighbour's key as the move route reads it: nothing for a missing id or an id with no assignment. */
  function NeighbourKey(m: Table, id: Option<TaskId>): (r: Option<real>)
    ensures r.Some? <==> id.Some? && id.value != "" && id.value in m
    ensures r.Some? ==> r.value == m[id.value].position
  {
    if id.Some? && id.value != "" && id.value in m then Some(m[id.value].position) else None
  }

  /**
   * The key of a move: the midpoint of both neighbours, one above `before`, one below
   * `after`, or 1024 above the target queue's maximum, in that order of preference.
   */
  method MoveKey(m: Table, target: Option<StaffId>, beforeId: Option<TaskId>, afterId: Option<TaskId>) returns (p: real)
    ensures var b := NeighbourKey(m, beforeId); var a := NeighbourKey(m, afterId);
      && (b.Some? && a.Some? ==> p == (b.value + a.value) / 2.0)
      && (b.Some? && a.None? ==> p == b.value + 1.0)
      && (b.None? && a.Some? ==> p == a.value - 1.0)
      && (b.None? && a.None? ==> IsMaxPosition(m, target, p - Gap))
  {
    var before := NeighbourKey(m, beforeId);
    var after := NeighbourKey(m, afterId);
    if before.Some? && after.Some? {
      p := (before.value + after.value) / 2.0;
    } else if before.Some? {
      p := before.value + 1.0;
    } else if after.Some? {
      p := after.value - 1.0;
    } else {
      var mx := MaxPosition(m, target);
      p := NextPosition(mx);
    }
  }

  /** Taking a task out of a queue leaves the rest of the queue, in order, as the queue of the other tasks. */
  lemma RemoveFromQueue(m: Table, s: Option<StaffId>, q: seq<TaskId>, j: nat)
    requires IsQueue(m, s, q) && j < |q|
    ensures IsQueue(m - {q[j]}, s, q[..j] + q[j + 1..])
  {
    var r := q[..j] + q[j + 1..];
    DeleteDistinct(q, j);
    DeleteSorted(m, q, j);
    forall id
      ensures id in r <==> InQueue(m - {q[j]}, s, id)
    {
      assert id in r <==> id in q && id != q[j];
      assert id in q <==> InQueue(m, s, id);
    }
  }

  lemma DeleteSorted(m: Table, q: seq<TaskId>, j: nat)
    requires Sorted(m, q) && Distinct(q) && j < |q|
    ensures Sorted(m - {q[j]}, q[..j] + q[j + 1..])
  {
    var r := q[..j] + q[j + 1..];
    assert forall k :: 0 <= k < |r| ==> r[k] == if k < j then q[k] else q[k + 1];
  }

  /** Deleting the element at `j` of a list without repeats leaves exactly the other elements, without repeats. */
  lemma DeleteDistinct<T>(q: seq<T>, j: nat)
    requires Distinct(q) && j < |q|
    ensures Distinct(q[..j] + q[j + 1..])
    ensures forall y :: y in q[..j] + q[j + 1..] <==> y in q && y != q[j]
  {
    var r := q[..j] + q[j + 1..];
    assert forall k :: 0 <= k < |r| ==> r[k] == if k < j then q[k] else q[k + 1];
    forall y | y in q && y != q[j]
      ensures y in r
    {
      var k :| 0 <= k < |q| && q[k] == y;
      assert y == if k < j then r[k] else r[k - 1];
    }
  }

  /**
   * The landing rule behind every move: giving `task` a key not below the first `i` tasks
   * of the target queue (without the task) and not above the rest places it at index `i`.
   */
  lemma Landing(m: Table, s: Option<StaffId>, task: TaskId, q0: seq<TaskId>, p: real, i: nat)
    requires IsQueue(m - {task}, s, q0)
    requires i <= |q0|
    requires forall j :: 0 <= j < i ==> m[q0[j]].position <= p
    requires forall j :: i <= j < |q0| ==> m[q0[j]].position >= p
    ensures IsQueue(m[task := Assignment(s, p)], s, q0[..i] + [task] + q0[i..])
  {
    var m' := m[task := Assignment(s, p)];
    assert forall id :: id in q0 ==> id != task && id in m && m'[id] == m[id];
    assert Sorted(m', q0);
    InsertSorted(m', q0, task, i);
    InsertDistinct(q0, task, i);
  }

  /** Both neighbours found, with `before` below `after`: the midpoint lies strictly between them. */
  lemma MidpointBetween(b: real, a: real)
    requires b < a
    ensures b < (b + a) / 2.0 < a
  {
  }

  /**
   * Moving between two adjacent tasks of the target queue whose keys differ puts the
   * task between them.
   */
  lemma MoveBetween(m: Table, s: Option<StaffId>, task: TaskId, q0: seq<TaskId>, i: nat)
    requires IsQueue(m - {task}, s, q0)
    requires 0 < i < |q0|
    requires m[q0[i - 1]].position < m[q0[i]].position
    ensures var p := (m[q0[i - 1]].position + m[q0[i]].position) / 2.0;
      IsQueue(m[task := Assignment(s, p)], s, q0[..i] + [task] + q0[i..])
  {
    var p := (m[q0[i - 1]].position + m[q0[i]].position) / 2.0;
    assert forall j :: 0 <= j < i ==> m[q0[j]].position <= m[q0[i - 1]].position;
    assert forall j :: i <= j < |q0| ==> m[q0[i]].position <= m[q0[j]].position;
    Landing(m, s, task, q0, p, i);
  }

  /**
   * Only `before` found: one above it puts the task right after `before`, provided the
   * next task's key is more than 1 above `before`'s.
   */
  lemma MoveAfterBefore(m: Table, s: Option<StaffId>, task: TaskId, q0: seq<TaskId>, i: nat)
    requires IsQueue(m - {task}, s, q0)
    requires 0 < i <= |q0|
    requires i < |q0| ==> m[q0[i]].position > m[q0[i - 1]].position + 1.0
    ensures IsQueue(m[task := Assignment(s, m[q0[i - 1]].position + 1.0)], s, q0[..i] + [task] + q0[i..])
  {
    var p := m[q0[i - 1]].position + 1.0;
    assert forall j :: 0 <= j < i ==> m[q0[j]].position <= m[q0[i - 1]].position;
    if i < |q0| {
      assert forall j :: i <= j < |q0| ==> m[q0[i]].position <= m[q0[j]].position;
    }
    Landing(m, s, task, q0, p, i);
  }

  /**
   * Only `after` found: one below it puts the task right before `after`, provided the
   * previous task's key is more than 1 below `after`'s.
   */
  lemma MoveBeforeAfter(m: Table, s: Option<StaffId>, task: TaskId, q0: seq<TaskId>, i: nat)
    requires IsQueue(m - {task}, s, q0)
    requires i < |q0|
    requires 0 < i ==> m[q0[i - 1]].position < m[q0[i]].position - 1.0
    ensures IsQueue(m[task := Assignment(s, m[q0[i]].position - 1.0)], s, q0[..i] + [task] + q0[i..])
  {
    var p := m[q0[i]].position - 1.0;
    assert forall j :: i <= j < |q0| ==> m[q0[i]].position <= m[q0[j]].position;
    if 0 < i {
      assert forall j :: 0 <= j < i ==> m[q0[j]].position <= m[q0[i - 1]].position;
    }
    Landing(m, s, task, q0, p, i);
  }

  /** Neither neighbour found: 1024 above the target queue's maximum puts the task last. */
  lemma MoveToEnd(m: Table, s: Option<StaffId>, task: TaskId, q0: seq<TaskId>, mx: real)
    requires IsQueue(m - {task}, s, q0)
    requires IsMaxPosition(m, s, mx)
    ensures IsQueue(m[task := Assignment(s, mx + Gap)], s, q0 + [task])
  {
    forall j | 0 <= j < |q0|
      ensures m[q0[j]].position <= mx + Gap
    {
      assert q0[j] in q0;
      assert InQueue(m, s, q0[j]);
    }
    Landing(m, s, task, q0, mx + Gap, |q0|);
    assert q0[..|q0|] + [task] + q0[|q0|..] == q0 + [task];
  }

  /**
   * Once keys have come closer than 1, one above `before` can overshoot the next task:
   * with keys 0 and 0.5, `before + 1` is 1, beyond 0.5.
   */
  lemma PlusOneOvershoots()
    ensures var m := map["a" := Assignment(None, 0.0), "b" := Assignment(None, 0.5)];
      m["a"].position + 1.0 > m["b"].position
  {
  }

  /** A move changes no other queue. */
  lemma MoveKeepsOtherQueues(m: Table, s: Option<StaffId>, task: TaskId, p: real, s2: Option<StaffId>, q2: seq<TaskId>)
    requires s2 != s
    requires IsQueue(m - {task}, s2, q2)
    ensures IsQueue(m[task := Assignment(s, p)], s2, q2)
  {
    var m' := m[task := Assignment(s, p)];
    assert forall id :: id in q2 ==> id != task && m'[id] == m[id];
  }

  /** `pos` after the re-keying loop of a staff delete: `q`'s tasks moved to the backlog at base+1024, base+2048, ... */
  ghost predicate Rekeyed(m: Table, q: seq<TaskId>, base: real, m': Table) {
    && m'.Keys == m.Keys
    && (forall k :: 0 <= k < |q| ==> q[k] in m)
    && (forall k :: 0 <= k < |q| ==> m'[q[k]] == Assignment(None, base + Gap * (k + 1) as real))
    && (forall id :: id in m && id !in q ==> m'[id] == m[id])
  }

  /** The loop of the staff delete: `pos` advanced by 1024 for each task of `q`, each written to the backlog. */
  method RekeyToBacklog(m: Table, q: seq<TaskId>, base: real) returns (m': Table)
    requires forall k :: 0 <= k < |q| ==> q[k] in m
    requires Distinct(q)
    ensures Rekeyed(m, q, base, m')
  {
    m' := m;
    var pos := base;
    for i := 0 to |q|
      invariant pos == base + Gap * i as real
      invariant m'.Keys == m.Keys
      invariant forall k :: 0 <= k < i ==> m'[q[k]] == Assignment(None, base + Gap * (k + 1) as real)
      invariant forall id :: id in m && id !in q[..i] ==> m'[id] == m[id]
    {
      pos := NextPosition(pos);
      m' := m'[q[i] := Assignment(None, pos)];
    }
    assert q[..|q|] == q;
  }

  /** After the re-keying loop nothing is left in the deleted staff member's queue. */
  lemma RekeyEmptiesQueue(m: Table, s: StaffId, q: seq<TaskId>, base: real, m': Table)
    requires IsQueue(m, Some(s), q)
    requires Rekeyed(m, q, base, m')
    ensures forall id :: id in m' ==> m'[id].staff != Some(s)
  {
    forall id | id in q
      ensures m'[id].staff == None
    {
      var k :| 0 <= k < |q| && q[k] == id;
    }
  }

  /** Deleting a staff member appends their queue, order kept, to the end of the backlog. */
  lemma RekeyAppendsToBacklog(m: Table, s: StaffId, q: seq<TaskId>, b: seq<TaskId>, base: real, m': Table)
    requires IsQueue(m, Some(s), q)
    requires IsQueue(m, None, b)
    requires IsMaxPosition(m, None, base)
    requires Rekeyed(m, q, base, m')
    ensures IsQueue(m', None, b + q)
  {
    var r := b + q;
    forall id | id in b
      ensures id !in q && m'[id] == m[id] && m[id].position <= base
    {
      assert InQueue(m, None, id);
    }
    assert forall k :: 0 <= k < |r| ==> r[k] == if k < |b| then b[k] else q[k - |b|];
    forall i, j | 0 <= i < j < |r|
      ensures m'[r[i]].position <= m'[r[j]].position
    {
      if j < |b| {
      } else if i < |b| {
        assert m'[r[j]].position == base + Gap * (j - |b| + 1) as real;
      } else {
        assert m'[r[i]].position == base + Gap * (i - |b| + 1) as real;
        assert m'[r[j]].position == base + Gap * (j - |b| + 1) as real;
      }
    }
    forall id
      ensures id in r <==> InQueue(m', None, id)
    {
      if id in q {
        var k :| 0 <= k < |q| && q[k] == id;
        assert m'[id].staff == None;
      }
    }
  }

  /** The re-keying loop leaves every other staff queue as it was. */
  lemma RekeyKeepsOtherQueues(m: Table, s: StaffId, q: seq<TaskId>, base: real, m': Table, t: StaffId, qt: seq<TaskId>)
    requires IsQueue(m, Some(s), q)
    requires Rekeyed(m, q, base, m')
    requires t != s
    requires IsQueue(m, Some(t), qt)
    ensures IsQueue(m', Some(t), qt)
  {
    assert forall id :: id in qt ==> InQueue(m, Some(t), id) && id !in q && m'[id] == m[id];
    forall id | id in q
      ensures m'[id].staff == None
    {
      var k :| 0 <= k < |q| && q[k] == id;
    }
  }

  /**
   * The first half of deleting staff member `s`: their queue, read in key order (`q`), is
   * re-keyed onto the end of the backlog, the k-th task at base + 1024 * (k + 1) above the
   * largest backlog key, with every other assignment kept. That empties their queue, appends `q` to the
   * backlog, leaves every other queue alone, keeps the same tasks and, when the queue was
   * empty, changes nothing; assignments that named a staff member in `keys` then name one in
   * `keys` other than `s`.
   */
  method MoveQueueToBacklog(m: Table, s: StaffId, ghost keys: set<StaffId>) returns (q: seq<TaskId>, m': Table)
    requires forall id :: id in m && m[id].staff.Some? ==> m[id].staff.value in keys
    ensures IsQueue(m, Some(s), q)
    ensures m'.Keys == m.Keys && (q == [] ==> m' == m)
    ensures forall id :: id in m' && m'[id].staff.Some? ==> m'[id].staff.value in keys - {s}
    ensures forall b :: IsQueue(m, None, b) ==> IsQueue(m', None, b + q)
    ensures forall t, qt :: t != s && IsQueue(m, Some(t), qt) ==> IsQueue(m', Some(t), qt)
    ensures exists base :: IsMaxPosition(m, None, base) && Rekeyed(m, q, base, m')
  {
    q := QueueOf(m, Some(s));
    var base := MaxPosition(m, None);
    m' := RekeyToBacklog(m, q, base);
    RekeyOutcome(m, s, q, base, m', keys);
  }

  /** What `MoveQueueToBacklog` promises, for any re-keying of the queue `q` of `s` above `base`. */
  lemma RekeyOutcome(m: Table, s: StaffId, q: seq<TaskId>, base: real, m': Table, keys: set<StaffId>)
    requires IsQueue(m, Some(s), q) && IsMaxPosition(m, None, base) && Rekeyed(m, q, base, m')
    requires forall id :: id in m && m[id].staff.Some? ==> m[id].staff.value in keys
    ensures m'.Keys == m.Keys && (q == [] ==> m' == m)
    ensures forall id :: id in m' && m'[id].staff.Some? ==> m'[id].staff.value in keys - {s}
    ensures forall b :: IsQueue(m, None, b) ==> IsQueue(m', None, b + q)
    ensures forall t, qt :: t != s && IsQueue(m, Some(t), qt) ==> IsQueue(m', Some(t), qt)
  {
    forall b | IsQueue(m, None, b)
      ensures IsQueue(m', None, b + q)
    {
      RekeyAppendsToBacklog(m, s, q, b, base, m');
    }
    forall t, qt | t != s && IsQueue(m, Some(t), qt)
      ensures IsQueue(m', Some(t), qt)
    {
      RekeyKeepsOtherQueues(m, s, q, base, m', t, qt);
    }
    RekeyEmptiesQueue(m, s, q, base, m');
    if q == [] {
      assert forall id :: id in m ==> m'[id] == m[id];
    }
  }

  /**
   * A new task keyed 1024 above the backlog maximum lands after every backlog task; on
   * an empty backlog its key is 1024.
   */
  lemma AppendToBacklog(m: Table, b: seq<TaskId>, base: real, t: TaskId)
    requires IsQueue(m, None, b)
    requires IsMaxPosition(m, None, base)
    requires t !in m
    ensures IsQueue(m[t := Assignment(None, NextPosition(base))], None, b + [t])
    ensures b == [] ==> NextPosition(base) == 1024.0
    ensures forall id :: InQueue(m, None, id) ==> m[id].position < NextPosition(base)
  {
    assert m - {t} == m;
    MoveToEnd(m, None, t, b, base);
    if b == [] {
      assert !exists id :: InQueue(m, None, id);
    }
  }

  /** `AppendToBacklog` for every listing of the backlog at once. */
  lemma AppendToBacklogAll(m: Table, base: real, t: TaskId)
    requires IsMaxPosition(m, None, base)
    requires t !in m
    ensures forall b :: IsQueue(m, None, b) ==> IsQueue(m[t := Assignment(None, NextPosition(base))], None, b + [t])
    ensures (forall id :: !InQueue(m, None, id)) ==> NextPosition(base) == 1024.0
  {
    forall b | IsQueue(m, None, b)
      ensures IsQueue(m[t := Assignment(None, NextPosition(base))], None, b + [t])
    {
      AppendToBacklog(m, b, base, t);
    }
  }

  /**
   * The join of a listing: the queue's task ids in queue order, keeping those the task
   * query found (`assigns.map(a => map.get(a.taskId)).filter(Boolean)`).
   */
  function Join<R>(found: map<TaskId, R>, q: seq<TaskId>): seq<TaskId> {
    if q == [] then []
    else if q[0] in found then [q[0]] + Join(found, q[1..])
    else Join(found, q[1..])
  }

  /** The join of a queue grown by one task: the join so far, then that task if it was found. */
  lemma {:induction false} JoinSnoc<R>(found: map<TaskId, R>, q: seq<TaskId>, id: TaskId)
    ensures Join(found, q + [id]) == Join(found, q) + (if id in found then [id] else [])
  {
    if q != [] {
      assert (q + [id])[1..] == q[1..] + [id];
      JoinSnoc(found, q[1..], id);
    } else {
      assert q + [id] == [id];
    }
  }

  lemma {:induction false} JoinMembers<R>(found: map<TaskId, R>, q: seq<TaskId>)
    ensures forall id :: id in Join(found, q) <==> id in q && id in found
  {
    if q != [] {
      JoinMembers(found, q[1..]);
      assert q == [q[0]] + q[1..];
    }
  }

  /**
   * A listing keeps the queue order and silently drops the ids the task query did not
   * find: the result is sorted by key, has no repeats, and holds exactly the found tasks
   * of the queue.
   */
  lemma {:induction false} JoinKeepsOrder<R>(m: Table, found: map<TaskId, R>, q: seq<TaskId>)
    requires Distinct(q) && Sorted(m, q)
    ensures Distinct(Join(found, q)) && Sorted(m, Join(found, q))
    ensures forall id :: id in Join(found, q) <==> id in q && id in found
  {
    JoinMembers(found, q);
    if q != [] {
      var rest := q[1..];
      assert Distinct(rest) && Sorted(m, rest);
      JoinKeepsOrder(m, found, rest);
      JoinMembers(found, rest);
      var r := Join(found, rest);
      if q[0] in found {
        forall k | 0 <= k < |r|
          ensures r[k] != q[0] && m[q[0]].position <= m[r[k]].position
        {
          assert r[k] in rest;
          var j :| 0 <= j < |rest| && rest[j] == r[k];
          assert q[j + 1] == r[k];
        }
        ConsKeepsOrder(m, q[0], r);
      }
    }
  }

  /** A task keyed no higher than any of a sorted list, and not in it, can go in front of it. */
  lemma ConsKeepsOrder(m: Table, x: TaskId, r: seq<TaskId>)
    requires Distinct(r) && Sorted(m, r) && x in m
    requires forall k :: 0 <= k < |r| ==> r[k] != x && m[x].position <= m[r[k]].position
    ensures Distinct([x] + r) && Sorted(m, [x] + r)
  {
    assert forall k :: 0 < k < |[x] + r| ==> ([x] + r)[k] == r[k - 1];
  }
}
