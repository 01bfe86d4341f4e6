/**
 * The two themes panels of the web client (apps/web/src/features/tasks/ThemesPanel.tsx with a
 * multiple selection, apps/web/src/components/ThemesPanel.tsx with a single one): which
 * summary rows are shown, the scale of their bars, which rows are dimmed, and the "Clear
 * filter" action. The hue of a row is `Hue.HueFromString` of its theme.
 */
module ThemesPanel {
  import opened Wrappers
  import Text
  import Themes

  type Item = Themes.Item

  /** The rows shown for `xs`: those whose theme is not blank, in their order. */
  function Shown(xs: seq<Item>): (items: seq<Item>)
    ensures |items| <= |xs|
  {
    if xs == [] then []
    else (if Text.IsBlank(xs[0].theme) then [] else [xs[0]]) + Shown(xs[1..])
  }

  /** `(data ?? []).filter((x) => (x.theme || '').trim())`: no data shows no rows. */
  function Items(data: Option<seq<Item>>): (items: seq<Item>)
    ensures data.None? ==> items == []
  {
    Shown(data.GetOr([]))
  }

  /** A row is shown exactly when it is in the data and its theme is not blank. */
  lemma {:induction false} ShownExactly(xs: seq<Item>, x: Item)
    ensures x in Shown(xs) <==> x in xs && !Text.IsBlank(x.theme)
  {
    if xs != [] {
      ShownExactly(xs[1..], x);
      assert x in xs <==> x == xs[0] || x in xs[1..] by {
        assert xs == [xs[0]] + xs[1..];
      }
    }
  }

  /** The filter keeps the order of the data: it works piecewise on a concatenation. */
  lemma {:induction false} ShownAppend(xs: seq<Item>, ys: seq<Item>)
    ensures Shown(xs + ys) == Shown(xs) + Shown(ys)
  {
    if xs != [] {
      assert (xs + ys)[0] == xs[0];
      assert (xs + ys)[1..] == xs[1..] + ys;
      ShownAppend(xs[1..], ys);
    } else {
      assert xs + ys == ys;
    }
  }

  /** `items.reduce((m, x) => Math.max(m, x.totalMandays), 0)`. */
  function LargestFromZero(items: seq<Item>): (m: int)
    ensures m >= 0
    ensures forall x | x in items :: x.totalMandays <= m
    ensures m == 0 || exists x | x in items :: x.totalMandays == m
  {
    if items == [] then 0
    else
      var n := |items| - 1;
      var m := LargestFromZero(items[..n]);
      assert items == items[..n] + [items[n]];
      if items[n].totalMandays > m then items[n].totalMandays else m
  }

  /**
   * `max`, the scale of the bars: the largest total among the rows when it is positive, and 1
   * otherwise (no rows, or none above 0), so never less than 1.
   */
  function MaxTotal(items: seq<Item>): (m: int)
    ensures m >= 1
    ensures forall x | x in items :: x.totalMandays <= m
    ensures (forall x | x in items :: x.totalMandays <= 0) ==> m == 1
    ensures (exists x | x in items :: x.totalMandays > 0) ==> exists x | x in items :: x.totalMandays == m
  {
    var m := LargestFromZero(items);
    if m == 0 then 1 else m
  }

  // ----- dimming -----

  /**
   * The opacity of a row in the panel with a multiple selection: half when some theme is
   * selected (`hasSelections`) and this row's is not (`isSelected`), full otherwise.
   */
  function OpacityMulti(selectedThemes: Option<seq<string>>, theme: string): (o: real)
    ensures o == 0.5 || o == 1.0
    ensures o == 0.5 <==> selectedThemes.Some? && selectedThemes.value != [] && theme !in selectedThemes.value
  {
    var isSelected := selectedThemes.Some? && theme in selectedThemes.value;
    var hasSelections := |selectedThemes.GetOr([])| > 0;
    if hasSelections && !isSelected then 0.5 else 1.0
  }

  /**
   * The opacity of a row in the panel with a single selection: half when a selection is set
   * (null, missing and the empty string select nothing) and differs from this row's theme.
   */
  function OpacitySingle(selected: Option<string>, theme: string): (o: real)
    ensures o == 0.5 || o == 1.0
    ensures o == 0.5 <==> selected.Some? && selected.value != "" && selected.value != theme
  {
    if selected.Some? && selected.value != "" && selected.value != theme then 0.5 else 1.0
  }

  /** A single selection dims exactly as the multiple selection holding just that theme does. */
  lemma SingleIsMultiOfOne(selected: string, theme: string)
    requires selected != ""
    ensures OpacitySingle(Some(selected), theme) == OpacityMulti(Some([selected]), theme)
  {
  }

  /**
   * With a multiple selection, the selected themes are never dimmed, and when something is
   * selected every other shown row is.
   */
  lemma {:induction false} DimmedRowsAreUnselected(selectedThemes: seq<string>, items: seq<Item>)
    requires selectedThemes != []
    ensures forall x | x in items :: (OpacityMulti(Some(selectedThemes), x.theme) == 1.0 <==> x.theme in selectedThemes)
  {
    forall x | x in items
      ensures OpacityMulti(Some(selectedThemes), x.theme) == 1.0 <==> x.theme in selectedThemes
    {
      var o := OpacityMulti(Some(selectedThemes), x.theme);
      assert o == 0.5 <==> x.theme !in selectedThemes;
    }
  }

  // ----- clearing the filter -----

  /**
   * The "Clear filter" button of the single-selection panel: offered only when some row is
   * shown, and it selects nothing (`onSelect(null)`). `None` is no button.
   */
  function ClearFilter(items: seq<Item>): (action: Option<Option<string>>)
    ensures action.Some? <==> |items| > 0
    ensures action.Some? ==> action.value.None?
  {
    if |items| > 0 then Some(None) else None
  }

  /** After "Clear filter" no row is dimmed. */
  lemma ClearingUndimsAll(items: seq<Item>)
    requires ClearFilter(items).Some?
    ensures forall x | x in items :: OpacitySingle(ClearFilter(items).value, x.theme) == 1.0
  {
  }
}
