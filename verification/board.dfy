/**
 * Where the board's drag and drop sends a dropped task (`onDragEnd` of
 * apps/web/src/components/Board.tsx). The containers are the backlog followed by one list
 * per staff member, in that order, each holding the ids of its tasks in queue order; a drop
 * becomes one move request naming the target queue and the ids the task should land between.
 */
module BoardDrag {
  import opened Wrappers
  import Text
  import Types

  type Id = Types.Id

  /** A droppable list: the backlog (`"backlog"`) or a staff member (its id), with its task ids in order. */
  datatype Container = Container(id: string, ids: seq<Id>)

  /** The request handed to the move mutation; `None` stands for `null`. */
  datatype Move = Move(taskId: Id, targetStaffId: Option<string>, beforeTaskId: Option<Id>, afterTaskId: Option<Id>)

  /** Where a drop lands: a container id, and the index of the hovered task when a task was hovered. */
  datatype Drop = Drop(to: string, index: Option<nat>)

  const BacklogId: string := "backlog"

  /** The id of container `i`. */
  function IdOf(cs: seq<Container>, i: nat): string
    requires i < |cs|
  {
    cs[i].id
  }

  /** The containers come from a `Map`, so their ids are distinct. */
  predicate DistinctIds(cs: seq<Container>) {
    forall i, j :: 0 <= i < j < |cs| ==> IdOf(cs, i) != IdOf(cs, j)
  }

  /** No id occurs twice in `xs`. */
  predicate NoDuplicates(xs: seq<Id>) {
    forall i, j :: 0 <= i < j < |xs| ==> xs[i] != xs[j]
  }

  /** `xs[i] ?? null`: the element at `i`, or nothing outside the list. */
  function At(xs: seq<Id>, i: int): Option<Id> {
    if 0 <= i < |xs| then Some(xs[i]) else None
  }

  /** `indexOf`: the first index holding `x`, or -1. */
  function IndexOf(xs: seq<Id>, x: Id): (i: int)
    ensures -1 <= i < |xs|
    ensures i >= 0 ==> xs[i] == x && x !in xs[..i]
    ensures i == -1 <==> x !in xs
  {
    if xs == [] then -1
    else if xs[0] == x then 0
    else
      var i := IndexOf(xs[1..], x);
      assert i >= 0 ==> xs[..i + 1] == [xs[0]] + xs[1..][..i];
      if i == -1 then -1 else i + 1
  }

  /** `filter((id) => id !== x)`. */
  function Remove(xs: seq<Id>, x: Id): (r: seq<Id>)
    ensures x !in r
  {
    if xs == [] then []
    else (if xs[0] == x then [] else [xs[0]]) + Remove(xs[1..], x)
  }

  /** `Remove` keeps every other id. */
  lemma {:induction false} RemoveKeepsOthers(xs: seq<Id>, x: Id, y: Id)
    ensures y in Remove(xs, x) <==> y in xs && y != x
  {
    if xs != [] {
      RemoveKeepsOthers(xs[1..], x, y);
      assert y in xs <==> y == xs[0] || y in xs[1..] by {
        assert xs == [xs[0]] + xs[1..];
      }
    }
  }

  /** `s[..i] + [x] + s[i..]`: `x` put in at position `i`. */
  function InsertAt(s: seq<Id>, i: nat, x: Id): (r: seq<Id>)
    requires i <= |s|
    ensures |r| == |s| + 1 && r[i] == x
    ensures r[..i] == s[..i] && r[i + 1..] == s[i..]
  {
    s[..i] + [x] + s[i..]
  }

  /**
   * `findContainerOf`: the first container, backlog first, whose ids include `id`; nothing
   * when none does.
   */
  function FindContainer(cs: seq<Container>, id: Id): (k: Option<nat>)
    ensures k.Some? ==> k.value < |cs| && id in cs[k.value].ids
    ensures k.Some? ==> forall j :: 0 <= j < k.value ==> id !in cs[j].ids
    ensures k.None? <==> forall j :: 0 <= j < |cs| ==> id !in cs[j].ids
  {
    if cs == [] then None
    else if id in cs[0].ids then Some(0)
    else
      match FindContainer(cs[1..], id)
      case None => None
      case Some(k) => Some(k + 1)
  }

  /** `containers.get(c)`: the ids of the container named `c`, empty when there is none. */
  function IdsOf(cs: seq<Container>, c: string): seq<Id> {
    if cs == [] then [] else if cs[0].id == c then cs[0].ids else IdsOf(cs[1..], c)
  }

  lemma {:induction false} IdsOfAt(cs: seq<Container>, k: nat)
    requires DistinctIds(cs) && k < |cs|
    ensures IdsOf(cs, cs[k].id) == cs[k].ids
  {
    if k > 0 {
      assert IdOf(cs, 0) != IdOf(cs, k);
      assert forall i :: 0 <= i < |cs| - 1 ==> IdOf(cs[1..], i) == IdOf(cs, i + 1);
      assert cs[1..][k - 1] == cs[k];
      IdsOfAt(cs[1..], k - 1);
    }
  }

  /** The container and index of a hovered task id, when some container shows it. */
  function DropOnItem(cs: seq<Container>, id: Id): (d: Option<Drop>)
    ensures d.Some? <==> exists k :: 0 <= k < |cs| && id in cs[k].ids
    ensures d.Some? ==> exists k :: 0 <= k < |cs| && d.value.to == cs[k].id && d.value.index.Some? &&
                          d.value.index.value < |cs[k].ids| && cs[k].ids[d.value.index.value] == id
  {
    match FindContainer(cs, id)
    case None => None
    case Some(k) => Some(Drop(cs[k].id, Some(IndexOf(cs[k].ids, id))))
  }

  /**
   * The destination of a drop over `overId`: the container and index of a hovered task; the
   * container and index of `<id>` for a Gantt block `gblock:<id>`; the end of container `c`
   * for `list:<c>` or `gantt:<c>`; nothing otherwise, and nothing when no (or an empty) id is
   * hovered.
   */
  function Resolve(cs: seq<Container>, overId: Option<string>): (d: Option<Drop>)
  {
    if overId.None? || overId.value == "" then None
    else
      var o := overId.value;
      var item := DropOnItem(cs, o);
      if item.Some? then item
      else if Text.StartsWith(o, "gblock:") then
        assert o[..7][6] == ':';
        DropOnItem(cs, Text.SecondField(o, ':').value)
      else if Text.StartsWith(o, "list:") || Text.StartsWith(o, "gantt:") then
        assert Text.StartsWith(o, "list:") ==> o[..5][4] == ':';
        assert Text.StartsWith(o, "gantt:") ==> o[..6][5] == ':';
        Some(Drop(Text.SecondField(o, ':').value, None))
      else None
  }

  /** `index > oldIndex ? index - 1 : index`: where the hovered index falls once the dragged task is taken out. */
  function InsertionIndex(oldIndex: int, index: int): int {
    if index > oldIndex then index - 1 else index
  }

  /** `to === 'backlog' ? null : to`. */
  function TargetOf(to: string): Option<string> {
    if to == BacklogId then None else Some(to)
  }

  /** The request putting `activeId` at position `ins` of `base`: after `base[ins - 1]`, before `base[ins]`. */
  function Between(activeId: Id, target: Option<string>, base: seq<Id>, ins: int): Move {
    Move(activeId, target, At(base, ins - 1), At(base, ins))
  }

  /**
   * The request for dragging `activeId`, found in container `f`, onto `drop`: between the
   * hovered task's neighbours (in the list without the dragged task when it stays in its
   * container), or at the end of the target.
   */
  function MoveTo(cs: seq<Container>, f: nat, activeId: Id, drop: Drop): Option<Move>
    requires f < |cs|
  {
    var from, fromIds, toIds := cs[f].id, cs[f].ids, IdsOf(cs, drop.to);
    var oldIndex := IndexOf(fromIds, activeId);
    var target := TargetOf(drop.to);
    if oldIndex == -1 then None
    else if drop.index.Some? then
      var index := drop.index.value;
      if drop.to == from then
        Some(Between(activeId, target, Remove(toIds, activeId), InsertionIndex(oldIndex, index)))
      else
        Some(Between(activeId, target, toIds, index))
    else if drop.to == from then
      var base := Remove(toIds, activeId);
      Some(Move(activeId, target, At(base, |base| - 1), None))
    else
      Some(Move(activeId, target, None, None))
  }

  /** `onDragEnd`: the move request for dropping `activeId` over `overId`, or no move. */
  function OnDragEnd(cs: seq<Container>, activeId: Id, overId: Option<string>): (m: Option<Move>)
    requires DistinctIds(cs)
  {
    match FindContainer(cs, activeId)
    case None => None
    case Some(f) =>
      match Resolve(cs, overId)
      case None => None
      case Some(drop) => if drop.to == "" then None else MoveTo(cs, f, activeId, drop)
  }

  // ----- properties -----

  /** A hovered task id resolves to that task's container and index. */
  lemma ResolveItem(cs: seq<Container>, o: string)
    requires o != "" && exists k :: 0 <= k < |cs| && o in cs[k].ids
    ensures Resolve(cs, Some(o)) == DropOnItem(cs, o) && Resolve(cs, Some(o)).Some?
  {
  }

  /** A hovered Gantt block `gblock:<id>` resolves to the container and index of task `<id>`. */
  lemma ResolveBlock(cs: seq<Container>, id: Id)
    requires ':' !in id
    requires forall k :: 0 <= k < |cs| ==> "gblock:" + id !in cs[k].ids
    ensures Resolve(cs, Some("gblock:" + id)) == DropOnItem(cs, id)
  {
    var o := "gblock:" + id;
    assert o == "gblock" + [':'] + id;
    assert o[..7] == "gblock:";
    Text.SecondFieldOfTagged("gblock", ':', id);
  }

  /** A hovered list or Gantt row, `list:<c>` or `gantt:<c>`, resolves to the end of container `c`. */
  lemma ResolveList(cs: seq<Container>, tag: string, c: string)
    requires tag == "list" || tag == "gantt"
    requires ':' !in c
    requires forall k :: 0 <= k < |cs| ==> tag + ":" + c !in cs[k].ids
    ensures Resolve(cs, Some(tag + ":" + c)) == Some(Drop(c, None))
  {
    var o := tag + ":" + c;
    assert o == tag + [':'] + c;
    assert o[..|tag| + 1] == tag + ":";
    assert !Text.StartsWith(o, "gblock:") by {
      if |o| >= 7 {
        assert o[0] != 'g' || o[1] != 'b';
      }
    }
    Text.SecondFieldOfTagged(tag, ':', c);
  }

  /** Any other hover, and no hover or an empty id, resolves to nothing. */
  lemma ResolveOther(cs: seq<Container>, o: string)
    requires !Text.StartsWith(o, "gblock:") && !Text.StartsWith(o, "list:") && !Text.StartsWith(o, "gantt:")
    requires forall k :: 0 <= k < |cs| ==> o !in cs[k].ids
    ensures Resolve(cs, Some(o)).None?
    ensures Resolve(cs, None).None? && Resolve(cs, Some("")).None?
  {
  }

  /**
   * No move is issued exactly when the dragged id is in no container, the hover resolves to
   * nothing, or it names an empty container id; otherwise the move is about the dragged
   * task, and its target is null exactly for the backlog.
   */
  lemma NoMoveCases(cs: seq<Container>, activeId: Id, overId: Option<string>)
    requires DistinctIds(cs)
    ensures OnDragEnd(cs, activeId, overId).None? <==>
      (forall k :: 0 <= k < |cs| ==> activeId !in cs[k].ids) || Resolve(cs, overId).None? || Resolve(cs, overId).value.to == ""
    ensures OnDragEnd(cs, activeId, overId).Some? ==>
      var m := OnDragEnd(cs, activeId, overId).value;
      m.taskId == activeId &&
      (m.targetStaffId.None? <==> Resolve(cs, overId).value.to == BacklogId) &&
      (m.targetStaffId.Some? ==> m.targetStaffId.value == Resolve(cs, overId).value.to)
  {
  }

  /** Within one container the moved task is never sent as its own neighbour. */
  lemma NeverOwnNeighbour(cs: seq<Container>, activeId: Id, overId: Option<string>)
    requires DistinctIds(cs)
    requires OnDragEnd(cs, activeId, overId).Some?
    requires Resolve(cs, overId).value.to == cs[FindContainer(cs, activeId).value].id
    ensures OnDragEnd(cs, activeId, overId).value.beforeTaskId != Some(activeId)
    ensures OnDragEnd(cs, activeId, overId).value.afterTaskId != Some(activeId)
  {
  }

  /** Removing the only occurrence of `x`, at `i`, closes the gap. */
  lemma {:induction false} RemoveAt(s: seq<Id>, x: Id, i: nat)
    requires i < |s| && s[i] == x
    requires NoDuplicates(s)
    ensures Remove(s, x) == s[..i] + s[i + 1..]
  {
    if i > 0 {
      RemoveAt(s[1..], x, i - 1);
      assert s[1..][..i - 1] == s[1..i];
      assert s[..i] == [s[0]] + s[1..i];
      assert s[1..][i..] == s[i + 1..];
    } else {
      assert forall y :: y in s[1..] ==> y != x;
      RemoveAbsent(s[1..], x);
    }
  }

  lemma {:induction false} RemoveAbsent(s: seq<Id>, x: Id)
    requires x !in s
    ensures Remove(s, x) == s
  {
    if s != [] {
      RemoveAbsent(s[1..], x);
    }
  }

  /** The neighbours of an inserted element are the elements on either side of the insertion point. */
  lemma InsertNeighbours(s: seq<Id>, i: nat, x: Id)
    requires i <= |s|
    ensures At(InsertAt(s, i, x), i - 1) == At(s, i - 1)
    ensures At(InsertAt(s, i, x), i + 1) == At(s, i)
  {
    var r := InsertAt(s, i, x);
    if i > 0 {
      assert r[i - 1] == r[..i][i - 1];
    }
    if i < |s| {
      assert r[i + 1] == r[i + 1..][0];
    }
  }

  /**
   * A drop on a task of another container lands the dragged task immediately before the
   * hovered one: the request's neighbours are those of the dragged task once inserted at the
   * hovered task's index, and the `after` neighbour is the hovered task.
   */
  lemma AcrossLandsBeforeHovered(cs: seq<Container>, activeId: Id, o: Id)
    requires DistinctIds(cs)
    requires OnDragEnd(cs, activeId, Some(o)).Some?
    requires exists k :: 0 <= k < |cs| && o in cs[k].ids
    requires Resolve(cs, Some(o)).value.to != cs[FindContainer(cs, activeId).value].id
    ensures var d := Resolve(cs, Some(o)).value;
      var toIds, m := IdsOf(cs, d.to), OnDragEnd(cs, activeId, Some(o)).value;
      && d.index.Some? && d.index.value < |toIds| && toIds[d.index.value] == o
      && m.beforeTaskId == At(InsertAt(toIds, d.index.value, activeId), d.index.value - 1)
      && m.afterTaskId == At(InsertAt(toIds, d.index.value, activeId), d.index.value + 1)
      && m.afterTaskId == Some(o)
  {
    ResolveItem(cs, o);
    var k := FindContainer(cs, o).value;
    IdsOfAt(cs, k);
    InsertNeighbours(IdsOf(cs, cs[k].id), IndexOf(cs[k].ids, o), activeId);
  }

  /**
   * Taking the element at `p` out of a list: the element that stood at `index` now stands at
   * `InsertionIndex(p, index)`, and when `index` is `p` itself the element's former
   * neighbours now meet there.
   */
  lemma NeighboursAfterRemoval(ids: seq<Id>, p: nat, index: nat)
    requires p < |ids| && index < |ids|
    ensures var base, ins := ids[..p] + ids[p + 1..], InsertionIndex(p, index);
      && 0 <= ins <= |base|
      && (index != p ==> At(base, ins) == Some(ids[index]))
      && (index == p ==> At(base, ins - 1) == At(ids, p - 1) && At(base, ins) == At(ids, p + 1))
  {
    var base := ids[..p] + ids[p + 1..];
    if index > p {
      assert base[index - 1] == ids[p + 1..][index - 1 - p];
    } else if index < p {
      assert base[index] == ids[..p][index];
    } else {
      if p > 0 {
        assert base[p - 1] == ids[..p][p - 1];
      }
      if p + 1 < |ids| {
        assert base[p] == ids[p + 1..][0];
      }
    }
  }

  /** The request `onDragEnd` makes for a drop on a task of the dragged task's own container. */
  lemma WithinMove(cs: seq<Container>, f: nat, activeId: Id, o: Id)
    requires DistinctIds(cs)
    requires FindContainer(cs, activeId) == Some(f) && cs[f].id != ""
    requires o != "" && FindContainer(cs, o) == Some(f)
    ensures var ids := cs[f].ids;
      OnDragEnd(cs, activeId, Some(o)) ==
      Some(Between(activeId, TargetOf(cs[f].id), Remove(ids, activeId), InsertionIndex(IndexOf(ids, activeId), IndexOf(ids, o))))
  {
    ResolveWithin(cs, f, o);
    var i := IndexOf(cs[f].ids, o);
    DragEndMoves(cs, activeId, Some(o), f, Drop(cs[f].id, Some(i)));
    MoveToWithin(cs, f, activeId, i);
  }

  /** `onDragEnd` once the dragged task's container and the drop are known. */
  lemma DragEndMoves(cs: seq<Container>, activeId: Id, overId: Option<string>, f: nat, drop: Drop)
    requires DistinctIds(cs) && FindContainer(cs, activeId) == Some(f)
    requires Resolve(cs, overId) == Some(drop) && drop.to != ""
    ensures OnDragEnd(cs, activeId, overId) == MoveTo(cs, f, activeId, drop)
  {
  }

  lemma ResolveWithin(cs: seq<Container>, f: nat, o: Id)
    requires o != "" && FindContainer(cs, o) == Some(f)
    ensures IndexOf(cs[f].ids, o) >= 0
    ensures Resolve(cs, Some(o)) == Some(Drop(cs[f].id, Some(IndexOf(cs[f].ids, o))))
  {
    assert DropOnItem(cs, o) == Some(Drop(cs[f].id, Some(IndexOf(cs[f].ids, o))));
  }

  lemma MoveToWithin(cs: seq<Container>, f: nat, activeId: Id, i: nat)
    requires DistinctIds(cs) && f < |cs| && activeId in cs[f].ids
    ensures var ids := cs[f].ids;
      MoveTo(cs, f, activeId, Drop(cs[f].id, Some(i))) ==
      Some(Between(activeId, TargetOf(cs[f].id), Remove(ids, activeId), InsertionIndex(IndexOf(ids, activeId), i)))
  {
    IdsOfAt(cs, f);
  }

  /**
   * The neighbours of a drop within one list that shows each id once: putting the dragged
   * task back into the list without it where the hovered task stood leaves the hovered task
   * right after it; hovering the dragged task itself gives back its current neighbours.
   */
  lemma LandsBeforeHovered(ids: seq<Id>, activeId: Id, o: Id)
    requires NoDuplicates(ids) && activeId in ids && o in ids
    ensures var base, oldIndex := Remove(ids, activeId), IndexOf(ids, activeId);
      var ins := InsertionIndex(oldIndex, IndexOf(ids, o));
      && 0 <= ins <= |base|
      && (o != activeId ==> At(base, ins) == Some(o))
      && (o == activeId ==> At(base, ins - 1) == At(ids, oldIndex - 1) && At(base, ins) == At(ids, oldIndex + 1))
  {
    var oldIndex, index := IndexOf(ids, activeId), IndexOf(ids, o);
    RemovedLands(ids, oldIndex, index);
    assert index == oldIndex <==> o == activeId;
  }

  /** `NeighboursAfterRemoval` for the list `Remove` leaves once the element at `p`, which occurs once, is dragged out. */
  lemma RemovedLands(ids: seq<Id>, p: nat, index: nat)
    requires NoDuplicates(ids) && p < |ids| && index < |ids|
    ensures var base, ins := Remove(ids, ids[p]), InsertionIndex(p, index);
      && 0 <= ins <= |base|
      && (index != p ==> At(base, ins) == Some(ids[index]))
      && (index == p ==> At(base, ins - 1) == At(ids, p - 1) && At(base, ins) == At(ids, p + 1))
  {
    RemoveAt(ids, ids[p], p);
    NeighboursAfterRemoval(ids, p, index);
  }

  /** The neighbours `Between` reads at `ins` are those the moved task has once put in at `ins`. */
  lemma InsertedMove(base: seq<Id>, ins: nat, activeId: Id, target: Option<string>)
    requires ins <= |base|
    ensures Between(activeId, target, base, ins)
         == Move(activeId, target, At(InsertAt(base, ins, activeId), ins - 1), At(InsertAt(base, ins, activeId), ins + 1))
  {
    InsertNeighbours(base, ins, activeId);
  }

  /**
   * A drop on the end of a container: within the same container the task goes after the last
   * other task of it; into another container both neighbours are null.
   */
  lemma AppendCases(cs: seq<Container>, activeId: Id, overId: Option<string>)
    requires DistinctIds(cs)
    requires OnDragEnd(cs, activeId, overId).Some?
    requires Resolve(cs, overId).value.index.None?
    ensures var f := FindContainer(cs, activeId).value;
      var d, m := Resolve(cs, overId).value, OnDragEnd(cs, activeId, overId).value;
      var base := Remove(cs[f].ids, activeId);
      && m.afterTaskId.None?
      && (d.to == cs[f].id ==> m.beforeTaskId == At(base, |base| - 1))
      && (d.to != cs[f].id ==> m.beforeTaskId.None?)
  {
    IdsOfAt(cs, FindContainer(cs, activeId).value);
  }
}
