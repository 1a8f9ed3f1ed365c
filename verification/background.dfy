/** The alarm sweep of the background worker. It re-implements the matcher
    and the eligibility rules inline; here the sweep is a pure fold from the
    stored settings and one tab snapshot to the ids it removes, with each
    removal applied before the next window query. */
module Background {
  import opened Wrappers
  import opened Text
  import opened Tabs
  import opened Storage
  import Lib

  const MsPerMinute: int := 60 * 1000

  /** The settings as the sweep sees them after applying its defaults. */
  datatype Config = Config(timeoutMinutes: int, enabled: bool, whitelist: seq<string>)

  /** The destructuring read of the settings: a default replaces a key only
      when nothing is stored under it. */
  function LoadConfig(stored: StoredSettings): (c: Config)
    ensures stored.timeoutMinutes.None? ==> c.timeoutMinutes == Lib.DefaultTimeoutMinutes
    ensures stored.timeoutMinutes.Some? ==> c.timeoutMinutes == stored.timeoutMinutes.value
    ensures c.enabled <==> stored.enabled != Some(false)
    ensures stored.whitelist.None? ==> c.whitelist == []
    ensures stored.whitelist.Some? ==> c.whitelist == stored.whitelist.value
  {
    Config(stored.timeoutMinutes.GetOr(Lib.DefaultTimeoutMinutes),
           stored.enabled.GetOr(true),
           stored.whitelist.GetOr([]))
  }

  /** `timeoutMinutes * 60 * 1000`. */
  function Threshold(c: Config): int {
    c.timeoutMinutes * MsPerMinute
  }

  /** The worker's own `getHostname`, built on the same host parser. */
  function HostnameOf(parse: string -> Option<string>): string -> Option<string> {
    url => Lib.GetHostname(parse, url)
  }

  /** The worker's copy of `isWhitelisted`: the `for ... of` loop from entry `i`
      on, returning at the first entry that matches. */
  function ScanWhitelist(hostname: string, whitelist: seq<string>, i: nat): bool
    requires i <= |whitelist|
    decreases |whitelist| - i
  {
    if i == |whitelist| then false
    else
      var domain := Lower(whitelist[i]);
      if hostname == domain || EndsWith(hostname, "." + domain) then true
      else ScanWhitelist(hostname, whitelist, i + 1)
  }

  function IsWhitelisted(hostname: string, whitelist: seq<string>): bool {
    ScanWhitelist(hostname, whitelist, 0)
  }

  lemma {:induction false} ScanAgrees(hostname: string, whitelist: seq<string>, i: nat)
    requires i <= |whitelist|
    ensures ScanWhitelist(hostname, whitelist, i) == Lib.IsWhitelisted(hostname, whitelist[i..])
    decreases |whitelist| - i
  {
    if i < |whitelist| {
      ScanAgrees(hostname, whitelist, i + 1);
      assert whitelist[i..][1..] == whitelist[i + 1..];
      assert whitelist[i..][0] == whitelist[i];
    }
  }

  /** The inline matcher is the library's matcher. */
  lemma InlineWhitelistAgrees(hostname: string, whitelist: seq<string>)
    ensures IsWhitelisted(hostname, whitelist) == Lib.IsWhitelisted(hostname, whitelist)
  {
    ScanAgrees(hostname, whitelist, 0);
    assert whitelist[0..] == whitelist;
  }

  /** The `continue` chain of the loop body: true when the tab survives every
      skip and is stale, so that its window is queried next. */
  predicate PassesSkipChain(cfg: Config, now: int, parse: string -> Option<string>, tab: Tab) {
    if tab.pinned || tab.active || tab.audible then false
    else
      var hostname := Lib.GetHostname(parse, OrEmpty(tab.url));
      if IsTruthy(hostname) && IsWhitelisted(hostname.value, cfg.whitelist) then false
      else if !HasAccessTime(tab) then false
      else now - tab.lastAccessed.value > Threshold(cfg)
  }

  /** The skip chain is `shouldCloseTab` with the configured threshold and
      whitelist and the worker's `getHostname`. */
  lemma SkipChainIsShouldCloseTab(cfg: Config, now: int, parse: string -> Option<string>, tab: Tab)
    ensures PassesSkipChain(cfg, now, parse, tab)
            == Lib.ShouldCloseTab(tab, now, Threshold(cfg), cfg.whitelist, HostnameOf(parse))
  {
    var hostname := Lib.GetHostname(parse, OrEmpty(tab.url));
    assert HostnameOf(parse)(OrEmpty(tab.url)) == hostname;
    if hostname.Some? {
      InlineWhitelistAgrees(hostname.value, cfg.whitelist);
    }
  }

  /** What `chrome.tabs.query({ windowId: w })` returns mid-sweep: the
      snapshot's tabs of window `w` that have not been removed yet. */
  function LiveWindow(snapshot: seq<Tab>, closed: set<TabId>, w: WindowId): seq<Tab> {
    InWindow(Open(snapshot, closed), w)
  }

  /** One loop iteration: the ids removed so far, plus `tab.id` if the tab is
      stale and its window still has another closable tab. */
  function Visit(cfg: Config, now: int, parse: string -> Option<string>,
                 snapshot: seq<Tab>, closed: set<TabId>, tab: Tab): set<TabId>
  {
    if !PassesSkipChain(cfg, now, parse, tab) then closed
    else
      var windowTabs := LiveWindow(snapshot, closed, tab.windowId);
      var closableTabs := Closable(windowTabs);
      if |closableTabs| <= 1 then closed
      else closed + {tab.id}
  }

  /** The iteration removes the tab exactly when the library predicates both
      allow it for the window as it stands at that moment. */
  lemma VisitIsLibraryDecision(cfg: Config, now: int, parse: string -> Option<string>,
                               snapshot: seq<Tab>, closed: set<TabId>, tab: Tab)
    ensures Visit(cfg, now, parse, snapshot, closed, tab)
            == if Lib.ShouldCloseTab(tab, now, Threshold(cfg), cfg.whitelist, HostnameOf(parse))
                  && Lib.CanCloseTabInWindow(tab, LiveWindow(snapshot, closed, tab.windowId))
               then closed + {tab.id} else closed
  {
    SkipChainIsShouldCloseTab(cfg, now, parse, tab);
    Lib.TwoClosableCount(LiveWindow(snapshot, closed, tab.windowId));
  }

  /** The loop from position `i` of the snapshot on. */
  function SweepFrom(cfg: Config, now: int, parse: string -> Option<string>,
                     snapshot: seq<Tab>, i: nat, closed: set<TabId>): set<TabId>
    requires i <= |snapshot|
    decreases |snapshot| - i
  {
    if i == |snapshot| then closed
    else SweepFrom(cfg, now, parse, snapshot, i + 1, Visit(cfg, now, parse, snapshot, closed, snapshot[i]))
  }

  /** The ids of the tabs in a snapshot. */
  function Ids(ts: seq<Tab>): set<TabId> {
    set t | t in ts :: t.id
  }

  /** One alarm tick: read the settings, stop if disabled, otherwise sweep
      the snapshot of all tabs. */
  function Sweep(stored: StoredSettings, now: int, parse: string -> Option<string>,
                 snapshot: seq<Tab>): (r: set<TabId>)
    ensures stored.enabled == Some(false) ==> r == {}
    ensures r <= Ids(snapshot)
  {
    var cfg := LoadConfig(stored);
    if !cfg.enabled then {}
    else
      SweepFromJustified(cfg, now, parse, snapshot, 0, {});
      SweepFrom(cfg, now, parse, snapshot, 0, {})
  }

  /** `id` belongs to a tab of the snapshot that `shouldCloseTab` accepts and
      whose window in the snapshot allows a close. */
  ghost predicate Justified(cfg: Config, now: int, parse: string -> Option<string>,
                            snapshot: seq<Tab>, id: TabId) {
    exists k :: 0 <= k < |snapshot| && snapshot[k].id == id
      && Lib.ShouldCloseTab(snapshot[k], now, Threshold(cfg), cfg.whitelist, HostnameOf(parse))
      && Lib.CanCloseTabInWindow(snapshot[k], InWindow(snapshot, snapshot[k].windowId))
  }

  /** Removing tabs never adds closable tabs to a window. */
  lemma {:induction false} LiveWindowShrinks(snapshot: seq<Tab>, closed: set<TabId>, w: WindowId)
    ensures |Closable(LiveWindow(snapshot, closed, w))| <= |Closable(InWindow(snapshot, w))|
  {
    if snapshot != [] {
      LiveWindowShrinks(snapshot[1..], closed, w);
      LiveCountCons(snapshot, closed, w);
      LiveCountCons(snapshot, {}, w);
      OpenNothing(snapshot);
      OpenNothing(snapshot[1..]);
    }
  }

  lemma {:induction false} OpenNothing(ts: seq<Tab>)
    ensures Open(ts, {}) == ts
  {
    if ts != [] {
      OpenNothing(ts[1..]);
      assert ts == [ts[0]] + ts[1..];
    }
  }

  /** The number of closable tabs of window `w` left open, unfolded by one tab. */
  lemma LiveCountCons(s: seq<Tab>, closed: set<TabId>, w: WindowId)
    requires s != []
    ensures |Closable(LiveWindow(s, closed, w))|
            == (if s[0].id !in closed && s[0].windowId == w && !s[0].pinned then 1 else 0)
               + |Closable(LiveWindow(s[1..], closed, w))|
  {
    var head := if s[0].id in closed then [] else [s[0]];
    var rest := Open(s[1..], closed);
    assert Open(s, closed) == head + rest;
    InWindowConcat(head, rest, w);
    Lib.ClosableConcat(InWindow(head, w), InWindow(rest, w));
    if head != [] {
      assert head[1..] == [];
      assert InWindow(head, w) == (if s[0].windowId == w then [s[0]] else []);
      if s[0].windowId == w {
        assert InWindow(head, w)[1..] == [];
      }
    }
  }

  lemma {:induction false} InWindowConcat(a: seq<Tab>, b: seq<Tab>, w: WindowId)
    ensures InWindow(a + b, w) == InWindow(a, w) + InWindow(b, w)
  {
    if a != [] {
      InWindowConcat(a[1..], b, w);
      assert (a + b)[1..] == a[1..] + b;
    } else {
      assert a + b == b;
    }
  }

  /** Removing one more id takes at most one closable tab out of a window,
      and none out of a window that tab does not belong to. */
  lemma {:induction false} CloseOneTab(s: seq<Tab>, closed: set<TabId>, id: TabId, w: WindowId)
    requires UniqueIds(s)
    ensures |Closable(LiveWindow(s, closed + {id}, w))| + 1 >= |Closable(LiveWindow(s, closed, w))|
    ensures (forall k :: 0 <= k < |s| && s[k].id == id ==> s[k].windowId != w)
            ==> |Closable(LiveWindow(s, closed + {id}, w))| == |Closable(LiveWindow(s, closed, w))|
  {
    if s != [] {
      var rest := s[1..];
      assert UniqueIds(rest) by {
        forall i, j | 0 <= i < j < |rest| ensures rest[i].id != rest[j].id {
          assert rest[i] == s[i + 1] && rest[j] == s[j + 1];
        }
      }
      CloseOneTab(rest, closed, id, w);
      LiveCountCons(s, closed, w);
      LiveCountCons(s, closed + {id}, w);
      if s[0].id == id {
        assert forall k :: 0 <= k < |rest| ==> rest[k].id != id by {
          forall k | 0 <= k < |rest| ensures rest[k].id != id {
            assert rest[k] == s[k + 1];
          }
        }
      } else {
        assert forall k :: 0 <= k < |rest| && rest[k].id == id ==> s[k + 1] == rest[k];
      }
    }
  }

  /** A tab removed by one iteration is justified by the snapshot alone. */
  lemma VisitJustified(cfg: Config, now: int, parse: string -> Option<string>,
                       snapshot: seq<Tab>, closed: set<TabId>, i: nat)
    requires i < |snapshot|
    ensures var next := Visit(cfg, now, parse, snapshot, closed, snapshot[i]);
      next == closed || (next == closed + {snapshot[i].id} && Justified(cfg, now, parse, snapshot, snapshot[i].id))
  {
    var tab := snapshot[i];
    VisitIsLibraryDecision(cfg, now, parse, snapshot, closed, tab);
    if Visit(cfg, now, parse, snapshot, closed, tab) != closed {
      LiveWindowShrinks(snapshot, closed, tab.windowId);
      Lib.TwoClosableCount(LiveWindow(snapshot, closed, tab.windowId));
      Lib.TwoClosableCount(InWindow(snapshot, tab.windowId));
      assert Lib.CanCloseTabInWindow(tab, InWindow(snapshot, tab.windowId));
    }
  }

  lemma {:induction false} SweepFromJustified(cfg: Config, now: int, parse: string -> Option<string>,
                                              snapshot: seq<Tab>, i: nat, closed: set<TabId>)
    requires i <= |snapshot|
    requires forall id :: id in closed ==> Justified(cfg, now, parse, snapshot, id)
    ensures forall id :: id in SweepFrom(cfg, now, parse, snapshot, i, closed)
                         ==> Justified(cfg, now, parse, snapshot, id)
    ensures SweepFrom(cfg, now, parse, snapshot, i, closed) <= closed + Ids(snapshot)
    decreases |snapshot| - i
  {
    if i < |snapshot| {
      var next := Visit(cfg, now, parse, snapshot, closed, snapshot[i]);
      VisitJustified(cfg, now, parse, snapshot, closed, i);
      assert snapshot[i].id in Ids(snapshot);
      SweepFromJustified(cfg, now, parse, snapshot, i + 1, next);
    }
  }

  /** A tab is removed only if `shouldCloseTab` holds of it and
      `canCloseTabInWindow` holds of its window. */
  lemma SweepClosesOnlyEligible(stored: StoredSettings, now: int, parse: string -> Option<string>,
                                snapshot: seq<Tab>)
    ensures forall id :: id in Sweep(stored, now, parse, snapshot)
              ==> Justified(LoadConfig(stored), now, parse, snapshot, id)
  {
    var cfg := LoadConfig(stored);
    if cfg.enabled {
      SweepFromJustified(cfg, now, parse, snapshot, 0, {});
    }
  }

  /** No pinned, active or audible tab is ever removed. */
  lemma SweepSparesProtected(stored: StoredSettings, now: int, parse: string -> Option<string>,
                             snapshot: seq<Tab>)
    requires UniqueIds(snapshot)
    ensures forall k :: 0 <= k < |snapshot| && snapshot[k].id in Sweep(stored, now, parse, snapshot)
              ==> !snapshot[k].pinned && !snapshot[k].active && !snapshot[k].audible
  {
    SweepClosesOnlyEligible(stored, now, parse, snapshot);
    var cfg := LoadConfig(stored);
    forall k | 0 <= k < |snapshot| && snapshot[k].id in Sweep(stored, now, parse, snapshot)
      ensures !snapshot[k].pinned && !snapshot[k].active && !snapshot[k].audible
    {
      var m :| 0 <= m < |snapshot| && snapshot[m].id == snapshot[k].id
        && Lib.ShouldCloseTab(snapshot[m], now, Threshold(cfg), cfg.whitelist, HostnameOf(parse));
      assert m == k;
    }
  }

  /** Every window that had a closable tab still has one. */
  ghost predicate KeepsClosable(snapshot: seq<Tab>, closed: set<TabId>) {
    forall w :: |Closable(InWindow(snapshot, w))| >= 1 ==> |Closable(LiveWindow(snapshot, closed, w))| >= 1
  }

  lemma {:induction false} SweepFromKeepsClosable(cfg: Config, now: int, parse: string -> Option<string>,
                                                  snapshot: seq<Tab>, i: nat, closed: set<TabId>)
    requires i <= |snapshot|
    requires UniqueIds(snapshot)
    requires KeepsClosable(snapshot, closed)
    ensures KeepsClosable(snapshot, SweepFrom(cfg, now, parse, snapshot, i, closed))
    decreases |snapshot| - i
  {
    if i < |snapshot| {
      var tab := snapshot[i];
      var next := Visit(cfg, now, parse, snapshot, closed, tab);
      if next != closed {
        assert next == closed + {tab.id};
        forall w | |Closable(InWindow(snapshot, w))| >= 1
          ensures |Closable(LiveWindow(snapshot, next, w))| >= 1
        {
          CloseOneTab(snapshot, closed, tab.id, w);
          if w != tab.windowId {
            forall k | 0 <= k < |snapshot| && snapshot[k].id == tab.id
              ensures snapshot[k].windowId != w
            {
              assert k == i;
            }
          }
        }
      }
      SweepFromKeepsClosable(cfg, now, parse, snapshot, i + 1, next);
    }
  }

  lemma {:induction false} InWindowContains(ts: seq<Tab>, k: nat)
    requires k < |ts|
    ensures ts[k] in InWindow(ts, ts[k].windowId)
  {
    if k > 0 {
      InWindowContains(ts[1..], k - 1);
      assert ts[1..][k - 1] == ts[k];
    }
  }

  /** With removals applied in order, the sweep never takes a window's last
      non-pinned tab: the window of any non-pinned tab still has one. */
  lemma SweepKeepsClosable(stored: StoredSettings, now: int, parse: string -> Option<string>,
                           snapshot: seq<Tab>, k: nat)
    requires UniqueIds(snapshot)
    requires k < |snapshot| && !snapshot[k].pinned
    ensures |Closable(LiveWindow(snapshot, Sweep(stored, now, parse, snapshot), snapshot[k].windowId))| >= 1
  {
    var cfg := LoadConfig(stored);
    InWindowContains(snapshot, k);
    assert snapshot[k] in Closable(InWindow(snapshot, snapshot[k].windowId));
    OpenNothing(snapshot);
    if cfg.enabled {
      SweepFromKeepsClosable(cfg, now, parse, snapshot, 0, {});
    }
  }

  /** The ids removed by the first `k` iterations of the loop. */
  function ClosedAfter(cfg: Config, now: int, parse: string -> Option<string>,
                       snapshot: seq<Tab>, k: nat): set<TabId>
    requires k <= |snapshot|
  {
    if k == 0 then {}
    else Visit(cfg, now, parse, snapshot, ClosedAfter(cfg, now, parse, snapshot, k - 1), snapshot[k - 1])
  }

  /** The loop is the first `k` iterations followed by the rest. */
  lemma {:induction false} SweepFromPrefix(cfg: Config, now: int, parse: string -> Option<string>,
                                           snapshot: seq<Tab>, k: nat)
    requires k <= |snapshot|
    ensures SweepFrom(cfg, now, parse, snapshot, 0, {})
            == SweepFrom(cfg, now, parse, snapshot, k, ClosedAfter(cfg, now, parse, snapshot, k))
  {
    if k > 0 {
      SweepFromPrefix(cfg, now, parse, snapshot, k - 1);
    }
  }

  /** A removal is never undone by later iterations. */
  lemma {:induction false} SweepFromGrows(cfg: Config, now: int, parse: string -> Option<string>,
                                          snapshot: seq<Tab>, i: nat, closed: set<TabId>)
    requires i <= |snapshot|
    ensures closed <= SweepFrom(cfg, now, parse, snapshot, i, closed)
    decreases |snapshot| - i
  {
    if i < |snapshot| {
      SweepFromGrows(cfg, now, parse, snapshot, i + 1, Visit(cfg, now, parse, snapshot, closed, snapshot[i]));
    }
  }

  /** Every id removed by the first `k` iterations is that of an earlier tab
      that passed the skip chain. */
  lemma {:induction false} ClosedAfterPassed(cfg: Config, now: int, parse: string -> Option<string>,
                                             snapshot: seq<Tab>, k: nat)
    requires k <= |snapshot|
    ensures forall id :: id in ClosedAfter(cfg, now, parse, snapshot, k) ==>
              exists j :: 0 <= j < k && snapshot[j].id == id && PassesSkipChain(cfg, now, parse, snapshot[j])
  {
    if k > 0 {
      ClosedAfterPassed(cfg, now, parse, snapshot, k - 1);
      forall id | id in ClosedAfter(cfg, now, parse, snapshot, k)
        ensures exists j :: 0 <= j < k && snapshot[j].id == id && PassesSkipChain(cfg, now, parse, snapshot[j])
      {
        if id !in ClosedAfter(cfg, now, parse, snapshot, k - 1) {
          assert snapshot[k - 1].id == id && PassesSkipChain(cfg, now, parse, snapshot[k - 1]);
        }
      }
    }
  }

  /** A window none of whose tabs has been removed is queried as in the
      snapshot. */
  lemma {:induction false} LiveWindowUntouched(snapshot: seq<Tab>, closed: set<TabId>, w: WindowId)
    requires forall m :: 0 <= m < |snapshot| && snapshot[m].windowId == w ==> snapshot[m].id !in closed
    ensures |Closable(LiveWindow(snapshot, closed, w))| == |Closable(InWindow(snapshot, w))|
  {
    if snapshot != [] {
      var rest := snapshot[1..];
      assert forall m :: 0 <= m < |rest| ==> rest[m] == snapshot[m + 1];
      LiveWindowUntouched(rest, closed, w);
      LiveCountCons(snapshot, closed, w);
      LiveCountCons(snapshot, {}, w);
      OpenNothing(snapshot);
      OpenNothing(rest);
    }
  }

  /** Before the first tab of window `w` that passes the skip chain is
      visited, no tab of `w` has been removed. */
  lemma FirstPasserSeesWholeWindow(cfg: Config, now: int, parse: string -> Option<string>,
                                   snapshot: seq<Tab>, k: nat)
    requires UniqueIds(snapshot)
    requires k < |snapshot|
    requires forall j :: 0 <= j < k && snapshot[j].windowId == snapshot[k].windowId
               ==> !PassesSkipChain(cfg, now, parse, snapshot[j])
    ensures |Closable(LiveWindow(snapshot, ClosedAfter(cfg, now, parse, snapshot, k), snapshot[k].windowId))|
            == |Closable(InWindow(snapshot, snapshot[k].windowId))|
  {
    var w := snapshot[k].windowId;
    var closed := ClosedAfter(cfg, now, parse, snapshot, k);
    ClosedAfterPassed(cfg, now, parse, snapshot, k);
    forall m | 0 <= m < |snapshot| && snapshot[m].windowId == w
      ensures snapshot[m].id !in closed
    {
      assert forall j :: 0 <= j < k && snapshot[j].id == snapshot[m].id ==> j == m;
    }
    LiveWindowUntouched(snapshot, closed, w);
  }

  /** The loop removes the first tab of a window that passes the skip chain
      when the window holds two closable tabs. */
  lemma FirstPasserRemoved(cfg: Config, now: int, parse: string -> Option<string>,
                           snapshot: seq<Tab>, k: nat)
    requires UniqueIds(snapshot)
    requires k < |snapshot|
    requires PassesSkipChain(cfg, now, parse, snapshot[k])
    requires |Closable(InWindow(snapshot, snapshot[k].windowId))| > 1
    requires forall j :: 0 <= j < k && snapshot[j].windowId == snapshot[k].windowId
               ==> !PassesSkipChain(cfg, now, parse, snapshot[j])
    ensures snapshot[k].id in SweepFrom(cfg, now, parse, snapshot, 0, {})
  {
    FirstPasserSeesWholeWindow(cfg, now, parse, snapshot, k);
    var after := ClosedAfter(cfg, now, parse, snapshot, k + 1);
    assert snapshot[k].id in after;
    SweepFromPrefix(cfg, now, parse, snapshot, k + 1);
    SweepFromGrows(cfg, now, parse, snapshot, k + 1, after);
  }

  /** The sweep closes every tab it should: the first tab of a window that
      `shouldCloseTab` accepts is removed whenever its window in the snapshot
      allows a close. */
  lemma SweepClosesFirstEligible(stored: StoredSettings, now: int, parse: string -> Option<string>,
                                 snapshot: seq<Tab>, k: nat)
    requires UniqueIds(snapshot)
    requires stored.enabled != Some(false)
    requires k < |snapshot|
    requires Lib.ShouldCloseTab(snapshot[k], now, Threshold(LoadConfig(stored)),
                                LoadConfig(stored).whitelist, HostnameOf(parse))
    requires Lib.CanCloseTabInWindow(snapshot[k], InWindow(snapshot, snapshot[k].windowId))
    requires forall j :: 0 <= j < k && snapshot[j].windowId == snapshot[k].windowId
               ==> !Lib.ShouldCloseTab(snapshot[j], now, Threshold(LoadConfig(stored)),
                                       LoadConfig(stored).whitelist, HostnameOf(parse))
    ensures snapshot[k].id in Sweep(stored, now, parse, snapshot)
  {
    var cfg := LoadConfig(stored);
    forall j | 0 <= j < k && snapshot[j].windowId == snapshot[k].windowId
      ensures !PassesSkipChain(cfg, now, parse, snapshot[j])
    {
      SkipChainIsShouldCloseTab(cfg, now, parse, snapshot[j]);
    }
    SkipChainIsShouldCloseTab(cfg, now, parse, snapshot[k]);
    Lib.TwoClosableCount(InWindow(snapshot, snapshot[k].windowId));
    FirstPasserRemoved(cfg, now, parse, snapshot, k);
  }
}
