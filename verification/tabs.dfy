/**
  The tab record the browser's tab provider hands to the popup. Only the
  fields the popup logic reads are kept: the identifier, used as the
  checkbox value and as the selection key, and the title and URL, used as
  sort keys.
 */
module Tabs {
  import opened JsText

  datatype Tab = Tab(id: int, title: JsString, url: JsString)

  /** The identifiers occurring in a snapshot. */
  function IdSet(tabs: seq<Tab>): set<int>
  {
    set t | t in tabs :: t.id
  }
}
