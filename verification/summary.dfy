/**
 * The themes summary returned by `GET /api/themes/summary` (apps/api/src/server.ts and
 * api/index.ts): the database's per-theme groups, without the blank themes, largest total
 * first. The grouping itself is done by the database and is an input here.
 */
module Themes {
  import opened Wrappers
  import Text

  /** One row of `groupBy({ by: theme, _sum: mandays, _count })`: a null sum when no row had mandays. */
  datatype Group = Group(theme: Option<string>, sum: Option<int>, count: int)

  /** One entry of the summary. */
  datatype Item = Item(theme: string, totalMandays: int, count: int)

  /** `(r.theme ?? "").trim() !== ""`. */
  predicate Kept(g: Group) {
    !Text.IsBlank(g.theme.GetOr(""))
  }

  /** `{ theme: r.theme!, totalMandays: r._sum.mandays ?? 0, count: r._count }`. */
  function ItemOf(g: Group): (item: Item)
    requires Kept(g)
    ensures g.theme == Some(item.theme) && !Text.IsBlank(item.theme)
    ensures g.sum.Some? ==> item.totalMandays == g.sum.value
    ensures g.sum.None? ==> item.totalMandays == 0
    ensures item.count == g.count
  {
    Item(g.theme.value, g.sum.GetOr(0), g.count)
  }

  /** The filter and the map of the pipeline, in the database's order. */
  function Themed(groups: seq<Group>): (items: seq<Item>)
    ensures |items| <= |groups|
    ensures forall i :: 0 <= i < |items| ==> !Text.IsBlank(items[i].theme)
  {
    if groups == [] then []
    else if Kept(groups[0]) then [ItemOf(groups[0])] + Themed(groups[1..])
    else Themed(groups[1..])
  }

  /** An item is in the summary exactly when some group with a non-blank theme produced it. */
  lemma {:induction false} ThemedExactly(groups: seq<Group>, item: Item)
    ensures item in Themed(groups) <==> exists i :: 0 <= i < |groups| && Kept(groups[i]) && ItemOf(groups[i]) == item
  {
    if groups != [] {
      ThemedExactly(groups[1..], item);
      if item in Themed(groups[1..]) {
        var i :| 0 <= i < |groups[1..]| && Kept(groups[1..][i]) && ItemOf(groups[1..][i]) == item;
        assert groups[i + 1] == groups[1..][i];
      }
      if exists i :: 0 <= i < |groups| && Kept(groups[i]) && ItemOf(groups[i]) == item {
        var i :| 0 <= i < |groups| && Kept(groups[i]) && ItemOf(groups[i]) == item;
        if i > 0 {
          assert groups[1..][i - 1] == groups[i];
        }
      }
    }
  }

  /** Largest total first. */
  predicate SortedByTotal(s: seq<Item>) {
    forall i, j :: 0 <= i < j < |s| ==> s[i].totalMandays >= s[j].totalMandays
  }

  /** `[x]` when its total is `v`, else nothing. */
  function Tie(x: Item, v: int): seq<Item> {
    if x.totalMandays == v then [x] else []
  }

  /** The items of `s` whose total is `v`, in order. */
  function WithTotal(s: seq<Item>, v: int): (r: seq<Item>)
    ensures forall i :: 0 <= i < |r| ==> r[i].totalMandays == v
  {
    if s == [] then [] else Tie(s[0], v) + WithTotal(s[1..], v)
  }

  /** Places `x` in front of the first element whose total is not larger. */
  function Insert(x: Item, s: seq<Item>): (r: seq<Item>)
    ensures multiset(r) == multiset(s) + multiset{x}
  {
    if s == [] || s[0].totalMandays <= x.totalMandays then [x] + s
    else
      assert s == [s[0]] + s[1..];
      [s[0]] + Insert(x, s[1..])
  }

  /**
   * `sort((a, b) => b.totalMandays - a.totalMandays)`; the array sort of ECMAScript is stable,
   * so this is the stable sort by decreasing total.
   */
  function SortByTotal(s: seq<Item>): (r: seq<Item>)
    ensures multiset(r) == multiset(s)
  {
    if s == [] then []
    else
      assert s == [s[0]] + s[1..];
      Insert(s[0], SortByTotal(s[1..]))
  }

  lemma {:induction false} InsertSorted(x: Item, s: seq<Item>)
    requires SortedByTotal(s)
    ensures SortedByTotal(Insert(x, s))
    ensures Insert(x, s) != [] && (Insert(x, s)[0] == x || (s != [] && Insert(x, s)[0] == s[0]))
  {
    if s != [] && s[0].totalMandays > x.totalMandays {
      InsertSorted(x, s[1..]);
    }
  }

  lemma {:induction false} SortedByTotalOrders(s: seq<Item>)
    ensures SortedByTotal(SortByTotal(s))
  {
    if s != [] {
      SortedByTotalOrders(s[1..]);
      InsertSorted(s[0], SortByTotal(s[1..]));
    }
  }

  lemma WithTotalCons(x: Item, s: seq<Item>, v: int)
    ensures WithTotal([x] + s, v) == Tie(x, v) + WithTotal(s, v)
  {
    assert ([x] + s)[0] == x && ([x] + s)[1..] == s;
  }

  lemma {:induction false} InsertKeepsTies(x: Item, s: seq<Item>, v: int)
    ensures WithTotal(Insert(x, s), v) == WithTotal([x] + s, v)
  {
    if s != [] && s[0].totalMandays > x.totalMandays {
      var rest := Insert(x, s[1..]);
      assert Insert(x, s) == [s[0]] + rest;
      InsertKeepsTies(x, s[1..], v);
      WithTotalCons(s[0], rest, v);
      WithTotalCons(x, s[1..], v);
      WithTotalCons(x, s, v);
      WithTotalCons(s[0], s[1..], v);
      assert [s[0]] + s[1..] == s;
      TiesCommute(Tie(s[0], v), Tie(x, v), WithTotal(s[1..], v));
    }
  }

  /** When one of `a` and `b` is empty, they go in front of `w` in either order (the ties of two items with different totals). */
  lemma TiesCommute(a: seq<Item>, b: seq<Item>, w: seq<Item>)
    requires a == [] || b == []
    ensures a + (b + w) == b + (a + w)
  {
  }

  /** Stability: the items of any one total keep their input order. */
  lemma {:induction false} SortKeepsTies(s: seq<Item>, v: int)
    ensures WithTotal(SortByTotal(s), v) == WithTotal(s, v)
  {
    if s != [] {
      SortKeepsTies(s[1..], v);
      InsertKeepsTies(s[0], SortByTotal(s[1..]), v);
      assert ([s[0]] + SortByTotal(s[1..]))[1..] == SortByTotal(s[1..]);
    }
  }

  /** The response body. */
  function Summary(groups: seq<Group>): (r: seq<Item>)
  {
    SortByTotal(Themed(groups))
  }

  /**
   * The summary holds one item per group with a non-blank theme and nothing else, largest total
   * first, and items with equal totals keep the database's order.
   */
  lemma SummaryIsSortedThemed(groups: seq<Group>, v: int)
    ensures multiset(Summary(groups)) == multiset(Themed(groups))
    ensures SortedByTotal(Summary(groups))
    ensures WithTotal(Summary(groups), v) == WithTotal(Themed(groups), v)
    ensures forall item :: item in Summary(groups) ==> !Text.IsBlank(item.theme)
  {
    SortedByTotalOrders(Themed(groups));
    SortKeepsTies(Themed(groups), v);
    forall item | item in Summary(groups) ensures !Text.IsBlank(item.theme) {
      assert item in multiset(Themed(groups));
    }
  }
}
