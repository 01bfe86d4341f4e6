/**
 * Reordering the backlog list by drag and drop (`onDragEnd` of
 * apps/web/src/components/BacklogPanel.tsx). The library's `arrayMove` is taken to remove
 * the element at the old index and insert it at the new one.
 */
module BacklogReorder {
  import opened Wrappers
  import Types
  import BoardDrag

  type Id = Types.Id

  /** `arrayMove(ids, from, to)`: the element at `from` taken out and put back in at `to`. */
  function ArrayMove(ids: seq<Id>, from: nat, to: nat): (r: seq<Id>)
    requires from < |ids| && to < |ids|
    ensures |r| == |ids| && r[to] == ids[from]
  {
    BoardDrag.InsertAt(ids[..from] + ids[from + 1..], to, ids[from])
  }

  /**
   * `onDragEnd` of the backlog list: no move unless a different, known backlog task is
   * hovered while the backlog is loaded; otherwise the dragged task goes to the backlog,
   * between its neighbours in the reordered list.
   */
  function OnDragEnd(ids: seq<Id>, loaded: bool, activeId: Id, overId: Option<Id>): (m: Option<BoardDrag.Move>)
  {
    if overId.None? || overId.value == "" || overId.value == activeId || !loaded then None
    else
      var oldIndex, newIndex := BoardDrag.IndexOf(ids, activeId), BoardDrag.IndexOf(ids, overId.value);
      if oldIndex == -1 || newIndex == -1 || oldIndex == newIndex then None
      else
        var newOrder := ArrayMove(ids, oldIndex, newIndex);
        Some(BoardDrag.Move(activeId, None, BoardDrag.At(newOrder, newIndex - 1), BoardDrag.At(newOrder, newIndex + 1)))
  }

  // ----- properties -----

  /**
   * `arrayMove` only moves the one element: the result holds the same ids, and without the
   * moved element it is the list without it, so every other id keeps its relative order.
   */
  lemma ArrayMoveKeepsOthers(ids: seq<Id>, from: nat, to: nat)
    requires from < |ids| && to < |ids|
    ensures var r := ArrayMove(ids, from, to);
      && r[..to] + r[to + 1..] == ids[..from] + ids[from + 1..]
      && multiset(r) == multiset(ids)
  {
    var rest := ids[..from] + ids[from + 1..];
    var r := ArrayMove(ids, from, to);
    assert r[..to] + r[to + 1..] == rest by {
      assert r[..to] == rest[..to];
      assert r[to + 1..] == rest[to..];
      assert rest == rest[..to] + rest[to..];
    }
    calc {
      multiset(r);
      { assert r == rest[..to] + [ids[from]] + rest[to..]; }
      multiset(rest[..to]) + multiset{ids[from]} + multiset(rest[to..]);
      { assert rest == rest[..to] + rest[to..]; }
      multiset(rest) + multiset{ids[from]};
      { assert ids == ids[..from] + [ids[from]] + ids[from + 1..]; }
      multiset(ids);
    }
  }

  /**
   * No move is issued when nothing (or an empty id) is hovered, the dragged task hovers
   * itself, the backlog is not loaded, or either id is not in the backlog; any move keeps the
   * dragged task in the backlog (a null target).
   */
  lemma NoMoveCases(ids: seq<Id>, loaded: bool, activeId: Id, overId: Option<Id>)
    ensures OnDragEnd(ids, loaded, activeId, overId).None? <==>
      overId.None? || overId.value == "" || overId.value == activeId || !loaded ||
      activeId !in ids || overId.value !in ids
    ensures OnDragEnd(ids, loaded, activeId, overId).Some? ==>
      OnDragEnd(ids, loaded, activeId, overId).value.taskId == activeId &&
      OnDragEnd(ids, loaded, activeId, overId).value.targetStaffId.None?
  {
    if overId.Some? && overId.value != activeId && activeId in ids && overId.value in ids {
      var a, b := BoardDrag.IndexOf(ids, activeId), BoardDrag.IndexOf(ids, overId.value);
      assert a != b by {
        assert ids[a] == activeId && ids[b] == overId.value;
      }
    }
  }

  /**
   * After `arrayMove(ids, from, to)` the element that stood at `to` is just before the moved
   * one when moving down, just after it when moving up.
   */
  lemma MovedNextTo(ids: seq<Id>, from: nat, to: nat)
    requires from < |ids| && to < |ids| && from != to
    ensures to > from ==> BoardDrag.At(ArrayMove(ids, from, to), to - 1) == Some(ids[to])
    ensures to < from ==> BoardDrag.At(ArrayMove(ids, from, to), to + 1) == Some(ids[to])
  {
    var rest := ids[..from] + ids[from + 1..];
    var r := ArrayMove(ids, from, to);
    if to > from {
      assert r[to - 1] == rest[..to][to - 1];
      assert rest[to - 1] == ids[from + 1..][to - 1 - from];
    } else {
      assert r[to + 1] == rest[to..][0];
      assert rest[to] == ids[..from][to];
    }
  }

  /**
   * Dragging down lands the task just after the hovered task; dragging up lands it just
   * before. The moved task stands at the hovered task's former index.
   */
  lemma LandsNextToHovered(ids: seq<Id>, loaded: bool, activeId: Id, over: Id)
    requires OnDragEnd(ids, loaded, activeId, Some(over)).Some?
    ensures var oldIndex, newIndex := BoardDrag.IndexOf(ids, activeId), BoardDrag.IndexOf(ids, over);
      var m := OnDragEnd(ids, loaded, activeId, Some(over)).value;
      && 0 <= oldIndex < |ids| && 0 <= newIndex < |ids|
      && ArrayMove(ids, oldIndex, newIndex)[newIndex] == activeId
      && (newIndex > oldIndex ==> m.beforeTaskId == Some(over))
      && (newIndex < oldIndex ==> m.afterTaskId == Some(over))
  {
    var oldIndex, newIndex := BoardDrag.IndexOf(ids, activeId), BoardDrag.IndexOf(ids, over);
    MovedNextTo(ids, oldIndex, newIndex);
  }
}
