# Tab overview popup: list state and selection model

A Dafny model of the popup page of the tabs-overview browser extension
(`src/page.js`). The popup lists the open tabs as rows with checkboxes, lets
the user tick ranges of rows with shift-click, closes the ticked tabs, and
re-sorts the list by URL or title. With the DOM and the browser's tab API
taken away, what is left is a small state machine:

- `Selection.ListState`: the rows in display order (`Row(listIndex, tab, checked)`,
  the row's `data-list-index`, the tab it shows and its checkbox state) and the
  anchor `selectedListIndex` (-1 for none);
- `SortPolicy.Settings`: the `settings` object with its two flags
  `sortByUrl` and `sortByTitle`;
- `Popup.Session`: both together, and one function per control (row click,
  sort by URL, sort by title, clear sort, close).

Modules:

- `JsText` (`js_text.dfy`): JavaScript strings as sequences of UTF-16 code
  units and the order that `<` / `>` put on them, proved equal to the
  prefix/first-difference definition of IsLessThan in ECMA-262 and proved a
  strict total order.
- `Tabs` (`tabs.dfy`): the tab record (id, title, URL).
- `Wrappers` (`wrappers.dfy`): `Option`, standing for an omitted `settings` argument.
- `SortPolicy` (`sort_policy.dfy`): the comparator `(a > b) ? 1 : -1`, a sort
  that conforms to it, and `Order`, the ordering `loadTabs` applies.
- `Selection` (`selection.dfy`): `selectBetween`, `handleMultiSelect`, the
  reload with selection carry-over, and the id collection of the close button.
- `Popup` (`popup.dfy`): the session, the controls, and the properties that
  span several events.

Behaviour of the code that the model keeps as written:

- The sort comparator answers -1 for equal keys in both argument orders. It
  is not a consistent comparator (section 23.1.3.30 of ECMA-262), and for
  such a comparator the standard leaves the sort order implementation-defined;
  in particular the sort is not guaranteed stable. The model assumes an
  engine whose sort still returns a permutation that is non-decreasing by
  the key, as insertion and merge sorts driven by this comparator do (see
  "Left out"). `SortPolicy.SortBy` is one such order, and
  `SortPolicy.ConformingSortsAgreeOnKeys` proves that any two such orders
  have the same sequence of keys, so they differ only among tabs with equal
  keys. No selection property depends on which one the engine picks.
- After closing tabs the list is reloaded with `loadTabs()` and no settings,
  so it comes back in provider order even though the sort flags in
  `settings` stay set (`Popup.OnClose`).
- A click on a checkbox first gives that box its new state (the browser's
  default action), then runs the row's listener; the state is kept in the
  rows, so a plain tick is what a later close or reload reads.
- A shift-click fills with the clicked box's state; it does not toggle each
  row. The anchor moves to the clicked index on every click, shift or not.
- A reload keeps a tab ticked exactly when its id was ticked before, whatever
  its new position; an id missing from the snapshot is dropped and stays
  unticked if the tab reappears later.

## Model

| member | source | states |
|---|---|---|
| JsText.LessIsIsLessThan | src/page.js:70-73 | The string comparison used by the comparators (`a.url > b.url`, `a.title > b.title`) is, for all inputs, the ECMA-262 string order: false when the right operand is a prefix of the left, true when the left is a proper prefix of the right, otherwise decided by the first differing code unit. |
| JsText.LessTrichotomy | src/page.js:70-73 | Any two strings compared by the sort keys are equal or one is below the other, so "non-decreasing by key" is a total order on tabs' keys. |
| JsText.LessTransitive | src/page.js:70-73 | The string order the comparators use is transitive. |
| SortPolicy.CompareInconsistentOnTies | src/page.js:70-73 | For two tabs with equal keys the comparator returns -1 in both argument orders, so it is not a consistent comparator and the tie order is left to the engine. |
| SortPolicy.CompareAntisymmetricOnDistinctKeys | src/page.js:70-73 | For distinct keys the comparator is antisymmetric and returns 1 exactly when the first key is greater. |
| SortPolicy.InsertKeepsSorted | src/page.js:70-73 | Placing a tab before the first tab the comparator does not put below it keeps a key-sorted sequence key-sorted. |
| SortPolicy.SortBy | src/page.js:69-74 | Sorting with the comparator yields a permutation of the snapshot whose keys never decrease along the list. |
| SortPolicy.Order | src/page.js:69-74 | The rendered order is a permutation of the snapshot; unchanged with no settings or no flag; non-decreasing by title when `sortByTitle` is set; non-decreasing by URL when only `sortByUrl` is set. |
| SortPolicy.OrderKeepsIds | src/page.js:69-74 | Sorting neither adds nor drops tab ids. |
| SortPolicy.ConformingSortsAgreeOnKeys | src/page.js:69-74 | Any two key-sorted permutations of the same snapshot have the same key at every position: engines may differ only in the order of tabs with equal keys. |
| Selection.SelectBetween | src/page.js:37-45 | Every row whose list index lies in the inclusive range gets the given checked state; every other row is unchanged; no row is added, dropped or moved. |
| Selection.Tick | src/page.js:105-112 | The browser's default action on a checkbox click: the box whose list index is the clicked one takes the new state; every other row, and every row's index and tab, are unchanged. |
| Selection.Click | src/page.js:14-29 | The anchor becomes the clicked index; when shift is held, an anchor exists and it differs from the clicked index, every row whose list index lies between the two (inclusive, either order) takes the clicked box's state; all other rows, and every row's index and tab, are unchanged. |
| Selection.ClickWithoutAnchorOrShift | src/page.js:16-21 | A click without shift, or with the anchor below zero, leaves every row as it was and only records the clicked index as the anchor. |
| Selection.ClickOnAnchorFillsNothing | src/page.js:23-28 | A shift-click on the anchored index changes no row. |
| Selection.PlainThenShiftFills | src/page.js:14-45 | A plain click at p followed by a shift-click at q != p ticks or unticks every row whose index lies between p and q to the second box's state and leaves every row outside that range exactly as before both clicks. |
| Selection.Reload | src/page.js:55-78 | After a reload the anchor is -1, row i has list index i, the rows show a permutation of the snapshot (in snapshot order when no settings are passed, sorted by the chosen key otherwise), and a row is ticked exactly when its tab's id was ticked before the reload. |
| Selection.ReloadCarriesSelection | src/page.js:55-77 | The set of ticked ids after a reload is the set ticked before, intersected with the ids of the new snapshot. |
| Selection.CloseIds | src/page.js:125-131 | The ids collected for closing are exactly the ids of the ticked rows, and there are no more of them than rows. |
| Selection.CloseIdsAppend | src/page.js:125-131 | Ids are collected in display order: the ids of an earlier run of rows come before those of a later run. |
| Selection.CloseIdsEmpty | src/page.js:125-132 | The close button asks to remove nothing exactly when no row is ticked. |
| Popup.Start | src/page.js:161 | On opening, the settings are empty, the rows show the snapshot in provider order numbered by position, nothing is ticked, and the anchor is none. |
| Popup.OnRowClick | src/page.js:14-29 | On position-numbered rows a click leaves the clicked row with the clicked box's state and, when it fills, every position between the anchor and the clicked index too; all other rows, the tabs, the settings and the numbering are unchanged; the anchor becomes the clicked index. |
| Popup.PlainThenShiftClickFills | src/page.js:14-45 | A plain click at p and then a shift-click at another rendered row q, each with the browser's tick, leave every position between p and q (inclusive) with the second box's state and every other position as it was before both clicks. |
| Popup.TickedRowStaysSelected | src/page.js:57-58 | A tick on a rendered row puts its tab id among the selected ids, so the next close requests it (lines 128-129) and a following sort keeps it ticked if the tab is still open. |
| Popup.TickThenCloseRequestsTab | src/page.js:123-132 | Ticking the only tab of a freshly opened popup and pressing close requests exactly that tab's id. |
| Popup.OnSortByUrl | src/page.js:140-145 | The URL button sets `sortByUrl`, clears `sortByTitle`, resets the anchor, shows the snapshot sorted by URL and keeps exactly the old ticked ids still present. |
| Popup.OnSortByTitle | src/page.js:147-152 | The title button sets `sortByTitle`, clears `sortByUrl`, resets the anchor, shows the snapshot sorted by title and keeps exactly the old ticked ids still present. |
| Popup.OnClearSort | src/page.js:154-159 | The clear button clears both flags and shows the snapshot in provider order, keeping exactly the old ticked ids still present. |
| Popup.OnClose | src/page.js:123-138 | The close button requests exactly the ticked ids in display order, keeps the settings as they were, and reloads in provider order with the anchor reset and the surviving ticked ids kept. |
| Popup.ReloadsKeepValid | src/page.js:140-159 | Every reloading control keeps rows numbered by position, the anchor within range, and at most one sort flag set. |
| Popup.ClickKeepsValid | src/page.js:16-18 | A click on a rendered row keeps the numbering and leaves the anchor on a rendered row. |
| Popup.ShiftClickAfterReloadIsPlain | src/page.js:62 | Because a reload resets the anchor to -1, the next click fills nothing whether or not shift is held. |
| Popup.SelectionIndependentOfSort | src/page.js:55-77 | The ticked ids after a reload are the same whichever sort is applied. |
| Popup.StaleIdStaysUnselected | src/page.js:55-77 | An id absent from a snapshot is unticked after that reload and stays unticked after any later reload, even if the tab reappears. |
| Popup.CloseClearsSelection | src/page.js:123-135 | When the browser has removed every requested tab, no row is ticked after the reload that follows the close. |

## Left out

- Rendering in `createTabElement`: the text nodes, the displayed number `listIndex + 1`, the favicon and its `startsWith('http')` check. Only the row's list index, tab and checked state are kept.
- `chrome.tabs.query` and `chrome.tabs.remove`: the snapshot a reload receives is a parameter, and closing yields only the requested id list; whether the browser actually removed the tabs is a precondition of `Popup.CloseClearsSelection`, not modelled.
- The asynchronous gap between clearing the list and the query callback, and overlapping reloads: event-loop timing, not list logic.
- Event-listener wiring and `preventDefault`.
- Clicks whose target has no `data-list-index` (the `<p>`, `<h2>` and `<img>` children, giving `NaN`) and clicks on the `<li>` itself (whose `checked` is `undefined`): the model takes a click as a checkbox with an integer index and a boolean state.
- The browser's own toggle of the clicked checkbox is not derived from the box's previous state: the new state arrives as part of the click event, and `Popup.OnRowClick` stores it in the clicked row before the handler runs.
- SortPolicy.Order: the sortedness it promises is an assumption about the engine. With the inconsistent comparator ECMA-262 makes the whole order implementation-defined; the model assumes, as insertion and merge sorts driven by this comparator give, a permutation non-decreasing by the key.
- SortPolicy.SortBy: fixes one order for tabs with equal keys (an insertion sort driven by the comparator); the engine's tie order is unspecified, and `SortPolicy.ConformingSortsAgreeOnKeys` shows any conforming engine differs only there.
- Tab ids are JavaScript numbers parsed back with `parseInt`; they are modelled as unbounded integers.
