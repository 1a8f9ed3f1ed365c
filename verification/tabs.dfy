/** The tab snapshot returned by `chrome.tabs.query` and the list filters the
    extension applies to it. */
module Tabs {
  import opened Wrappers

  type TabId = int
  type WindowId = int

  /** One tab as the browser reports it. `url` is absent for some tabs; a
      `lastAccessed` of 0 is falsy in JavaScript and so means the same as absent. */
  datatype Tab = Tab(
    id: TabId,
    windowId: WindowId,
    pinned: bool,
    active: bool,
    audible: bool,
    url: Option<string>,
    lastAccessed: Option<int>)

  /** `s || ""` for an optional string: absent and empty both give "". */
  function OrEmpty(s: Option<string>): string {
    if s.Some? then s.value else ""
  }

  /** JavaScript truthiness of an optional string: present and non-empty. */
  predicate IsTruthy(s: Option<string>) {
    s.Some? && s.value != ""
  }

  /** JavaScript truthiness of `tab.lastAccessed`: present and non-zero. */
  predicate HasAccessTime(tab: Tab) {
    tab.lastAccessed.Some? && tab.lastAccessed.value != 0
  }

  /** `ts.filter(t => !t.pinned)`: the tabs the window guard counts. */
  function Closable(ts: seq<Tab>): (r: seq<Tab>)
    ensures |r| <= |ts|
    ensures forall t :: t in r <==> t in ts && !t.pinned
  {
    if ts == [] then []
    else (if ts[0].pinned then [] else [ts[0]]) + Closable(ts[1..])
  }

  /** The tabs of window `w`, in order (`chrome.tabs.query({ windowId: w })`). */
  function InWindow(ts: seq<Tab>, w: WindowId): (r: seq<Tab>)
    ensures |r| <= |ts|
  {
    if ts == [] then []
    else (if ts[0].windowId == w then [ts[0]] else []) + InWindow(ts[1..], w)
  }

  /** The tabs whose ids have not been removed. */
  function Open(ts: seq<Tab>, closed: set<TabId>): (r: seq<Tab>)
    ensures |r| <= |ts|
  {
    if ts == [] then []
    else (if ts[0].id in closed then [] else [ts[0]]) + Open(ts[1..], closed)
  }

  /** Tab ids are unique within a browser session. */
  predicate UniqueIds(ts: seq<Tab>) {
    forall i, j :: 0 <= i < j < |ts| ==> ts[i].id != ts[j].id
  }
}
