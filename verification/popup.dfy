/**
  The popup as a whole (src/page.js): the list state together with the
  `settings` object, and what each control does to them. The tab provider's
  answers are parameters: `snapshot` is whatever list of tabs the browser
  reports when a reload's query completes.
 */
module Popup {
  import opened Tabs
  import opened SortPolicy
  import opened Selection
  import opened Wrappers

  /** The module-level state of the popup page. */
  datatype Session = Session(list: ListState, settings: Settings)

  /** The ids the close button asks the browser to remove, and the session after the reload that follows. */
  datatype CloseOutcome = CloseOutcome(requested: seq<int>, after: Session)

  /** `settings = {}`: neither flag set. */
  const Unsorted: Settings := Settings(false, false)

  /**
    What holds between events: rows are numbered by position, the anchor is
    none or a rendered row, and at most one sort flag is set.
   */
  ghost predicate Valid(s: Session)
  {
    && Indexed(s.list.rows)
    && NoAnchor <= s.list.anchor < |s.list.rows|
    && !(s.settings.sortByUrl && s.settings.sortByTitle)
  }

  /** Opening the popup: empty settings, no anchor, and `loadTabs()` with no settings. */
  function Start(snapshot: seq<Tab>): (s: Session)
    ensures Valid(s)
    ensures s.list.anchor == NoAnchor
    ensures s.settings == Unsorted
    ensures TabsOf(s.list.rows) == snapshot
    ensures CheckedIds(s.list.rows) == {}
  {
    var empty := ListState([], NoAnchor);
    ReloadCarriesSelection(empty, snapshot, None);
    Session(Reload(empty, snapshot, None), Unsorted)
  }

  /**
    A click on a row's checkbox: the browser first gives the clicked box its
    new state, then the row's listener `handleMultiSelect` runs. On
    position-numbered rows the clicked row and, for a fill, every position
    between the anchor and it end up with the clicked box's state.
   */
  function OnRowClick(s: Session, ev: ClickEvent): (r: Session)
    ensures r.settings == s.settings
    ensures r.list.anchor == ev.listIndex
    ensures TabsOf(r.list.rows) == TabsOf(s.list.rows)
    ensures Indexed(s.list.rows) ==> Indexed(r.list.rows)
    ensures Indexed(s.list.rows) ==> forall i :: 0 <= i < |s.list.rows| ==>
      r.list.rows[i].checked == (if i == ev.listIndex || (Fills(s.list, ev) && Between(s.list.anchor, ev.listIndex, i))
                                 then ev.checked else s.list.rows[i].checked)
  {
    var ticked := ListState(Tick(s.list.rows, ev.listIndex, ev.checked), s.list.anchor);
    var list := Click(ticked, ev);
    assert TabsOf(list.rows) == TabsOf(s.list.rows);
    s.(list := list)
  }

  /**
    The user's two clicks: a plain click at `p`, then a shift-click at `q`
    on another rendered row. Every position between them takes the second
    box's state, and every other position keeps the state it had before
    both clicks.
   */
  lemma PlainThenShiftClickFills(s: Session, p: int, q: int, c0: bool, c: bool)
    requires Valid(s) && 0 <= p < |s.list.rows| && 0 <= q < |s.list.rows| && p != q
    ensures var r := OnRowClick(OnRowClick(s, ClickEvent(p, c0, false)), ClickEvent(q, c, true));
      && r.list.anchor == q
      && TabsOf(r.list.rows) == TabsOf(s.list.rows)
      && forall i :: 0 <= i < |s.list.rows| ==>
           r.list.rows[i].checked == (if Between(p, q, i) then c else s.list.rows[i].checked)
  {
  }

  /**
    A tick on a rendered row is remembered: the row's tab is selected
    afterwards, so a following close requests it and a following reload
    keeps it ticked if the tab is still open.
   */
  lemma TickedRowStaysSelected(s: Session, ev: ClickEvent, snapshot: seq<Tab>)
    requires Valid(s) && 0 <= ev.listIndex < |s.list.rows| && ev.checked
    ensures var r := OnRowClick(s, ev);
      var id := s.list.rows[ev.listIndex].tab.id;
      && id in CheckedIds(r.list.rows)
      && id in OnClose(r, snapshot).requested
      && (id in IdSet(snapshot) ==> id in CheckedIds(OnSortByTitle(r, snapshot).list.rows))
  {
    var r := OnRowClick(s, ev);
    var row := r.list.rows[ev.listIndex];
    assert TabsOf(r.list.rows)[ev.listIndex] == row.tab;
    assert row in r.list.rows && row.checked;
  }

  /** Ticking the only tab of a fresh popup and pressing close requests exactly that tab. */
  lemma TickThenCloseRequestsTab(t: Tab)
    ensures OnClose(OnRowClick(Start([t]), ClickEvent(0, true, false)), []).requested == [t.id]
  {
    var r := OnRowClick(Start([t]), ClickEvent(0, true, false));
    assert TabsOf(r.list.rows)[0] == r.list.rows[0].tab;
    assert r.list.rows == [r.list.rows[0]];
  }

  /** The sort-by-URL button: set `sortByUrl`, clear `sortByTitle`, reload with the settings. */
  function OnSortByUrl(s: Session, snapshot: seq<Tab>): (r: Session)
    ensures r.settings.sortByUrl && !r.settings.sortByTitle
    ensures r.list.anchor == NoAnchor
    ensures multiset(TabsOf(r.list.rows)) == multiset(snapshot)
    ensures SortedBy(TabsOf(r.list.rows), ByUrl)
    ensures CheckedIds(r.list.rows) == CheckedIds(s.list.rows) * IdSet(snapshot)
  {
    var settings := s.settings.(sortByUrl := true, sortByTitle := false);
    ReloadCarriesSelection(s.list, snapshot, Some(settings));
    Session(Reload(s.list, snapshot, Some(settings)), settings)
  }

  /** The sort-by-title button: set `sortByTitle`, clear `sortByUrl`, reload with the settings. */
  function OnSortByTitle(s: Session, snapshot: seq<Tab>): (r: Session)
    ensures r.settings.sortByTitle && !r.settings.sortByUrl
    ensures r.list.anchor == NoAnchor
    ensures multiset(TabsOf(r.list.rows)) == multiset(snapshot)
    ensures SortedBy(TabsOf(r.list.rows), ByTitle)
    ensures CheckedIds(r.list.rows) == CheckedIds(s.list.rows) * IdSet(snapshot)
  {
    var settings := s.settings.(sortByTitle := true, sortByUrl := false);
    ReloadCarriesSelection(s.list, snapshot, Some(settings));
    Session(Reload(s.list, snapshot, Some(settings)), settings)
  }

  /** The clear-sort button: clear both flags and reload in provider order. */
  function OnClearSort(s: Session, snapshot: seq<Tab>): (r: Session)
    ensures r.settings == Unsorted
    ensures r.list.anchor == NoAnchor
    ensures TabsOf(r.list.rows) == snapshot
    ensures CheckedIds(r.list.rows) == CheckedIds(s.list.rows) * IdSet(snapshot)
  {
    ReloadCarriesSelection(s.list, snapshot, None);
    Session(Reload(s.list, snapshot, None), Unsorted)
  }

  /**
    The close button: ask to remove the ids of the checked rows, in display
    order, and once the browser is done reload with no settings. The list
    comes back in provider order even when a sort flag is still set.
   */
  function OnClose(s: Session, snapshotAfter: seq<Tab>): (out: CloseOutcome)
    ensures out.requested == CloseIds(s.list.rows)
    ensures forall x :: x in out.requested <==> x in CheckedIds(s.list.rows)
    ensures out.after.settings == s.settings
    ensures out.after.list.anchor == NoAnchor
    ensures TabsOf(out.after.list.rows) == snapshotAfter
    ensures CheckedIds(out.after.list.rows) == CheckedIds(s.list.rows) * IdSet(snapshotAfter)
  {
    var ids := CloseIds(s.list.rows);
    ReloadCarriesSelection(s.list, snapshotAfter, None);
    CloseOutcome(ids, Session(Reload(s.list, snapshotAfter, None), s.settings))
  }

  /** Every reloading control keeps the session valid. */
  lemma ReloadsKeepValid(s: Session, snapshot: seq<Tab>)
    requires Valid(s)
    ensures Valid(OnSortByUrl(s, snapshot))
    ensures Valid(OnSortByTitle(s, snapshot))
    ensures Valid(OnClearSort(s, snapshot))
    ensures Valid(OnClose(s, snapshot).after)
  {
  }

  /** A click on a rendered row keeps the session valid. */
  lemma ClickKeepsValid(s: Session, ev: ClickEvent)
    requires Valid(s) && 0 <= ev.listIndex < |s.list.rows|
    ensures Valid(OnRowClick(s, ev))
  {
  }

  /** Right after any reload, a shift-click behaves as a plain click: it fills nothing. */
  lemma ShiftClickAfterReloadIsPlain(st: ListState, snapshot: seq<Tab>, settings: Option<Settings>, ev: ClickEvent)
    ensures var loaded := Reload(st, snapshot, settings);
      Click(loaded, ev) == Click(loaded, ev.(shiftKey := false)) == ListState(loaded.rows, ev.listIndex)
  {
    var loaded := Reload(st, snapshot, settings);
    ClickWithoutAnchorOrShift(loaded, ev);
    ClickWithoutAnchorOrShift(loaded, ev.(shiftKey := false));
  }

  /** Which tabs are selected after a reload does not depend on the sort applied. */
  lemma SelectionIndependentOfSort(st: ListState, snapshot: seq<Tab>, s1: Option<Settings>, s2: Option<Settings>)
    ensures CheckedIds(Reload(st, snapshot, s1).rows) == CheckedIds(Reload(st, snapshot, s2).rows)
  {
    ReloadCarriesSelection(st, snapshot, s1);
    ReloadCarriesSelection(st, snapshot, s2);
  }

  /**
    An id missing from a snapshot loses its selection for good: if the tab
    comes back in a later snapshot it comes back unticked.
   */
  lemma StaleIdStaysUnselected(st: ListState, snap1: seq<Tab>, snap2: seq<Tab>,
                               s1: Option<Settings>, s2: Option<Settings>, x: int)
    requires x !in IdSet(snap1)
    ensures x !in CheckedIds(Reload(st, snap1, s1).rows)
    ensures x !in CheckedIds(Reload(Reload(st, snap1, s1), snap2, s2).rows)
  {
    ReloadCarriesSelection(st, snap1, s1);
    ReloadCarriesSelection(Reload(st, snap1, s1), snap2, s2);
  }

  /** Once the browser has removed every requested tab, nothing is ticked after the reload. */
  lemma CloseClearsSelection(s: Session, snapshotAfter: seq<Tab>)
    requires forall t :: t in snapshotAfter ==> t.id !in OnClose(s, snapshotAfter).requested
    ensures CheckedIds(OnClose(s, snapshotAfter).after.list.rows) == {}
    ensures forall i :: 0 <= i < |snapshotAfter| ==> !OnClose(s, snapshotAfter).after.list.rows[i].checked
  {
    var rows := OnClose(s, snapshotAfter).after.list.rows;
    assert |rows| == |TabsOf(rows)| == |snapshotAfter|;
    forall i | 0 <= i < |snapshotAfter|
      ensures !rows[i].checked
    {
      assert TabsOf(rows)[i] == rows[i].tab;
      assert rows[i].tab in snapshotAfter;
    }
  }
}
