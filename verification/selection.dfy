/**
  The list state of the popup (src/page.js): the rendered rows, each with its
  `data-list-index`, the tab it shows and its checkbox state, and the anchor
  `selectedListIndex` that shift-click ranges start from (-1 when there is
  none). Clicks fill ranges of rows by list index; a reload rebuilds every
  row from a fresh snapshot, carrying the checked state over by tab id and
  dropping the anchor; closing collects the ids of the checked rows.
 */
module Selection {
  import opened Tabs
  import opened SortPolicy
  import opened Wrappers

  /** One list item: its `data-list-index`, its tab, and whether its checkbox is ticked. */
  datatype Row = Row(listIndex: int, tab: Tab, checked: bool)

  /** The rows in display order and the anchor `selectedListIndex`. */
  datatype ListState = ListState(rows: seq<Row>, anchor: int)

  /** The value of `selectedListIndex` when no row is anchored. */
  const NoAnchor: int := -1

  /**
    A click that reaches `handleMultiSelect` from a row's checkbox: the
    checkbox's `data-list-index`, its `checked` state as the handler reads
    it, and whether shift was held.
   */
  datatype ClickEvent = ClickEvent(listIndex: int, checked: bool, shiftKey: bool)

  function Min(a: int, b: int): int { if a <= b then a else b }

  function Max(a: int, b: int): int { if a <= b then b else a }

  /** The click extends a range: shift is held, an anchor exists and it is another row. */
  predicate Fills(st: ListState, ev: ClickEvent)
  {
    ev.shiftKey && st.anchor >= 0 && ev.listIndex != st.anchor
  }

  /** `x` lies between `p` and `q`, both ends included, in whichever order they come. */
  predicate Between(p: int, q: int, x: int)
  {
    Min(p, q) <= x <= Max(p, q)
  }

  /** Every row is numbered by its position. */
  ghost predicate Indexed(rows: seq<Row>)
  {
    forall i :: 0 <= i < |rows| ==> rows[i].listIndex == i
  }

  function TabsOf(rows: seq<Row>): seq<Tab>
  {
    seq(|rows|, i requires 0 <= i < |rows| => rows[i].tab)
  }

  /** The ids of the checked rows, as `loadTabs` gathers them into `selectedIds`. */
  function CheckedIds(rows: seq<Row>): set<int>
  {
    set r | r in rows && r.checked :: r.tab.id
  }

  /**
    `selectBetween`: every row whose list index lies in
    `[startIndex, endIndex]` gets `checked`; every other row is left as it is.
   */
  function SelectBetween(rows: seq<Row>, startIndex: int, endIndex: int, checked: bool): (r: seq<Row>)
    ensures |r| == |rows|
    ensures forall i :: 0 <= i < |rows| ==> r[i].listIndex == rows[i].listIndex && r[i].tab == rows[i].tab
    ensures forall i :: 0 <= i < |rows| && startIndex <= rows[i].listIndex <= endIndex ==> r[i].checked == checked
    ensures forall i :: 0 <= i < |rows| && !(startIndex <= rows[i].listIndex <= endIndex) ==> r[i] == rows[i]
  {
    if rows == [] then []
    else
      var row := rows[0];
      var row' := if startIndex <= row.listIndex <= endIndex then row.(checked := checked) else row;
      [row'] + SelectBetween(rows[1..], startIndex, endIndex, checked)
  }

  /**
    The browser's own action on a checkbox click, taken before the row's
    listener runs: the clicked box, the one carrying `listIndex`, takes its
    new state. Every other box is left alone.
   */
  function Tick(rows: seq<Row>, listIndex: int, checked: bool): (r: seq<Row>)
    ensures |r| == |rows|
    ensures forall i :: 0 <= i < |rows| ==> r[i].listIndex == rows[i].listIndex && r[i].tab == rows[i].tab
    ensures forall i :: 0 <= i < |rows| ==>
      r[i].checked == (if rows[i].listIndex == listIndex then checked else rows[i].checked)
  {
    SelectBetween(rows, listIndex, listIndex, checked)
  }

  /**
    `handleMultiSelect`: the anchor always moves to the clicked index; when
    the click fills, every row between the old anchor and the clicked index
    takes the clicked box's state, and nothing else changes.
   */
  function Click(st: ListState, ev: ClickEvent): (r: ListState)
    ensures r.anchor == ev.listIndex
    ensures |r.rows| == |st.rows|
    ensures forall i :: 0 <= i < |st.rows| ==>
      r.rows[i].listIndex == st.rows[i].listIndex && r.rows[i].tab == st.rows[i].tab
    ensures forall i :: 0 <= i < |st.rows| ==>
      r.rows[i].checked == (if Fills(st, ev) && Between(st.anchor, ev.listIndex, st.rows[i].listIndex)
                            then ev.checked else st.rows[i].checked)
  {
    var previous := st.anchor;
    var next := ev.listIndex;
    if !ev.shiftKey || previous < 0 then ListState(st.rows, next)
    else if next > previous then ListState(SelectBetween(st.rows, previous, next, ev.checked), next)
    else if next < previous then ListState(SelectBetween(st.rows, next, previous, ev.checked), next)
    else ListState(st.rows, next)
  }

  /** A plain click, or any click with no anchor, ticks nothing and only moves the anchor. */
  lemma ClickWithoutAnchorOrShift(st: ListState, ev: ClickEvent)
    requires !ev.shiftKey || st.anchor < 0
    ensures Click(st, ev) == ListState(st.rows, ev.listIndex)
  {
    var r := Click(st, ev);
    assert forall i :: 0 <= i < |st.rows| ==> r.rows[i] == st.rows[i];
  }

  /** A shift-click on the anchored row itself fills nothing. */
  lemma ClickOnAnchorFillsNothing(st: ListState, ev: ClickEvent)
    requires ev.listIndex == st.anchor
    ensures Click(st, ev) == ListState(st.rows, ev.listIndex)
  {
    var r := Click(st, ev);
    assert forall i :: 0 <= i < |st.rows| ==> r.rows[i] == st.rows[i];
  }

  /**
    A plain click at `p` followed by a shift-click at `q` sets every row whose
    index lies between `p` and `q` to the second box's state and leaves every
    other row as it was before the two clicks.
   */
  lemma PlainThenShiftFills(st: ListState, p: int, q: int, c0: bool, c: bool)
    requires p >= 0
    ensures var r := Click(Click(st, ClickEvent(p, c0, false)), ClickEvent(q, c, true));
      && r.anchor == q
      && |r.rows| == |st.rows|
      && (forall i :: 0 <= i < |st.rows| ==> r.rows[i].listIndex == st.rows[i].listIndex && r.rows[i].tab == st.rows[i].tab)
      && (forall i :: 0 <= i < |st.rows| && Between(p, q, st.rows[i].listIndex) && p != q ==> r.rows[i].checked == c)
      && (forall i :: 0 <= i < |st.rows| && !(Between(p, q, st.rows[i].listIndex) && p != q) ==> r.rows[i] == st.rows[i])
  {
    ClickWithoutAnchorOrShift(st, ClickEvent(p, c0, false));
  }

  /** `createTabElement` over the ordered snapshot: row `i` shows tab `i`, ticked when its id was selected. */
  function Render(ordered: seq<Tab>, selectedIds: set<int>): seq<Row>
  {
    seq(|ordered|, i requires 0 <= i < |ordered| => Row(i, ordered[i], ordered[i].id in selectedIds))
  }

  /**
    `loadTabs(settings)` once the provider has answered with `snapshot`: the
    ids of the checked rows are kept, the anchor is reset, and the rows are
    rebuilt from the ordered snapshot, numbered by position, each ticked
    exactly when its tab's id was ticked before.
   */
  function Reload(st: ListState, snapshot: seq<Tab>, settings: Option<Settings>): (r: ListState)
    ensures r.anchor == NoAnchor
    ensures Indexed(r.rows)
    ensures multiset(TabsOf(r.rows)) == multiset(snapshot)
    ensures forall i :: 0 <= i < |r.rows| ==> (r.rows[i].checked <==> r.rows[i].tab.id in CheckedIds(st.rows))
    ensures settings.None? ==> TabsOf(r.rows) == snapshot
    ensures settings.Some? && settings.value.sortByTitle ==> SortedBy(TabsOf(r.rows), ByTitle)
    ensures settings.Some? && settings.value.sortByUrl && !settings.value.sortByTitle ==> SortedBy(TabsOf(r.rows), ByUrl)
  {
    var ordered := Order(snapshot, settings);
    var rows := Render(ordered, CheckedIds(st.rows));
    assert TabsOf(rows) == ordered;
    ListState(rows, NoAnchor)
  }

  /** After a reload the selected ids are the old ones that are still in the snapshot. */
  lemma ReloadCarriesSelection(st: ListState, snapshot: seq<Tab>, settings: Option<Settings>)
    ensures CheckedIds(Reload(st, snapshot, settings).rows) == CheckedIds(st.rows) * IdSet(snapshot)
  {
    var rows := Reload(st, snapshot, settings).rows;
    var ordered := Order(snapshot, settings);
    OrderKeepsIds(snapshot, settings);
    assert TabsOf(rows) == ordered;
    forall x | x in CheckedIds(rows)
      ensures x in CheckedIds(st.rows) * IdSet(snapshot)
    {
      var row :| row in rows && row.checked && row.tab.id == x;
      var i :| 0 <= i < |rows| && rows[i] == row;
      assert ordered[i] in ordered;
    }
    forall x | x in CheckedIds(st.rows) * IdSet(ordered)
      ensures x in CheckedIds(rows)
    {
      var t :| t in ordered && t.id == x;
      var i :| 0 <= i < |ordered| && ordered[i] == t;
      assert rows[i] in rows;
    }
  }

  /** The ids of the checked rows in display order: what the close button asks to remove. */
  function CloseIds(rows: seq<Row>): (ids: seq<int>)
    ensures |ids| <= |rows|
    ensures forall x :: x in ids <==> x in CheckedIds(rows)
  {
    if rows == [] then []
    else
      assert rows == [rows[0]] + rows[1..];
      (if rows[0].checked then [rows[0].tab.id] else []) + CloseIds(rows[1..])
  }

  /** Collecting over two runs of rows collects the first run's ids before the second's. */
  lemma {:induction false} CloseIdsAppend(a: seq<Row>, b: seq<Row>)
    ensures CloseIds(a + b) == CloseIds(a) + CloseIds(b)
  {
    if a == [] {
      assert a + b == b;
    } else {
      assert (a + b)[0] == a[0];
      assert (a + b)[1..] == a[1..] + b;
      CloseIdsAppend(a[1..], b);
    }
  }

  /** Closing with nothing ticked asks to remove nothing, and only then. */
  lemma CloseIdsEmpty(rows: seq<Row>)
    ensures CloseIds(rows) == [] <==> forall i :: 0 <= i < |rows| ==> !rows[i].checked
  {
    if exists i :: 0 <= i < |rows| && rows[i].checked {
      var i :| 0 <= i < |rows| && rows[i].checked;
      assert rows[i] in rows;
      assert rows[i].tab.id in CloseIds(rows);
    }
  }
}
