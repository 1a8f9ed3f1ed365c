# End of Tab — a Dafny model of the tab auto-close decision engine

End of Tab is a browser extension. Once a minute it closes tabs that have been idle longer than a configured timeout. Several rules protect tabs from being closed:

- pinned, active and audible tabs are never closed;
- tabs on a whitelisted domain, or on any subdomain of one, are never closed;
- tabs with no recorded access time are never closed;
- a window's last non-pinned tab is never closed.

This project models the decision logic as pure Dafny functions over immutable tab records and proves the properties the library, the background worker and the settings popup rely on.

- `Wrappers`: the `Option` type.
- `Text`: ASCII lower-casing and `endsWith`.
- `Tabs`: the `Tab` record and the list filters `Closable` (non-pinned), `InWindow` and `Open` (not yet removed). A `lastAccessed` of `Some(0)` is treated as absent, because 0 is falsy in JavaScript.
- `Storage`: the three keys kept in `chrome.storage.local`. Each is `None` while nothing has been stored under it.
- `Lib` (src/lib.js): `getHostname`, `isWhitelisted`, `shouldCloseTab` and `canCloseTabInWindow`. The host parser behind `new URL(url).hostname` is a function parameter `parse`.
- `Background` (src/background.js): the alarm handler as a fold over one snapshot of all tabs, with its own inline copies of the matcher and the eligibility rules. Each removal takes effect before the next window query. `Sweep` returns the set of tab ids the handler removes.
- `Popup` (src/popup.js): how settings are read and how an edited timeout is stored, plus the "add current site" and "remove domain" list edits.
- `LibCases`: the expectations of test/lib.test.js, stated about the model.

Three behaviours of the code are easy to misread:

- The whitelist step applies only when the hostname is truthy. An empty hostname is never checked against the whitelist.
- The matcher lower-cases whitelist entries, never the hostname. Matching ignores case only because `getHostname` returns lower case.
- A timeout of 0 or a negative timeout can be stored. The background worker applies a default only when nothing is stored, so a stored 0 gives a threshold of 0 ms. The popup reads the same stored 0 as 30 (see `Popup.PopupAgreesWithSweep`). The popup itself only ever writes a non-zero value, but that value may be negative.

## Model

| member | source | states |
|---|---|---|
| Lib.GetHostname | src/lib.js:3-9 | The result is absent exactly when URL parsing fails. Otherwise it is lower-case and equals the parsed hostname up to case. |
| Lib.IsWhitelisted | src/lib.js:11-19 | The result is true iff some entry e has hostname == lower(e) or hostname ending in "." + lower(e). In particular it is false for an empty list. |
| Lib.WhitelistOrderIrrelevant | src/lib.js:11-19 | Any permutation of the whitelist gives the same answer: the matcher is an existential check, not a priority order. |
| Lib.MatchIsDomainOrSubdomain | src/lib.js:13-14 | A match is the domain itself, or the domain preceded by a "." at a label boundary. Matching is by suffix, never by substring. |
| Lib.SubdomainMatches | src/lib.js:13-14 | Every hostname of the form prefix + "." + lower(entry) matches the entry, at any depth. |
| Lib.ShouldCloseTab | src/lib.js:21-36 | A pinned, active or audible tab is never eligible. Neither is a tab whose truthy hostname is whitelisted, nor one whose lastAccessed is absent or 0. When no rule fires, the tab is eligible iff lastAccessed < now - threshold. That comparison is strict, so a tab exactly at the threshold is kept. |
| Lib.TwoClosableCount | src/lib.js:39-40 | The window holds more than one non-pinned tab iff two distinct positions hold non-pinned tabs. |
| Lib.CanCloseTabInWindow | src/lib.js:38-41 | Closing is allowed iff two distinct tabs of the window are not pinned. |
| Lib.GuardIgnoresPinned | src/lib.js:38-41 | Inserting a pinned tab anywhere does not change the guard's answer. Neither does which candidate tab is passed. |
| Background.LoadConfig | src/background.js:32-33 | A missing timeout becomes 30, a missing enabled flag becomes true, and a missing whitelist becomes empty. A value that is stored is used as is. |
| Background.ScanAgrees | src/background.js:11-19 | The inline loop from entry i on answers as the library matcher does on the rest of the list. |
| Background.InlineWhitelistAgrees | src/background.js:11-19 | The worker's inline isWhitelisted is extensionally equal to the library's. |
| Background.SkipChainIsShouldCloseTab | src/background.js:42-49 | The loop's continue chain reaches the window query exactly when shouldCloseTab holds. That call uses threshold timeoutMinutes*60000, the configured whitelist and the same getHostname. |
| Background.VisitIsLibraryDecision | src/background.js:41-55 | One iteration removes the tab iff shouldCloseTab holds of it and canCloseTabInWindow holds of its window as it stands at that moment. |
| Background.Sweep | src/background.js:28-56 | When enabled is stored as false nothing is removed, and every removed id is the id of a tab in the snapshot. |
| Background.LiveWindowShrinks | src/background.js:50-51 | Earlier removals never add non-pinned tabs to a window's query result. |
| Background.CloseOneTab | src/background.js:50-54 | With unique tab ids, one removal takes at most one non-pinned tab out of a window, and none out of another window. |
| Background.SweepClosesOnlyEligible | src/background.js:41-55 | Every removed id belongs to a snapshot tab that passes shouldCloseTab and whose full window passes canCloseTabInWindow. |
| Background.SweepSparesProtected | src/background.js:42 | With unique tab ids, no pinned, active or audible tab is ever removed. |
| Background.SweepKeepsClosable | src/background.js:50-54 | With removals applied in sequence, the window of any non-pinned tab of the snapshot still holds a non-pinned tab after the sweep. |
| Background.SweepFromPrefix | src/background.js:41-56 | The loop over the whole snapshot equals its first k iterations followed by the remaining ones. |
| Background.SweepFromGrows | src/background.js:54 | Later iterations never undo a removal. |
| Background.ClosedAfterPassed | src/background.js:42-54 | Every id removed in the first k iterations is the id of an earlier tab that passed the continue chain. |
| Background.LiveWindowUntouched | src/background.js:50-51 | A window none of whose tabs has been removed has the same number of non-pinned tabs as in the snapshot. |
| Background.FirstPasserSeesWholeWindow | src/background.js:41-52 | With unique ids, when the first tab of a window that passes the continue chain is visited, the window query still sees all of that window's non-pinned tabs. |
| Background.FirstPasserRemoved | src/background.js:41-55 | That first passing tab is removed when its window holds two or more non-pinned tabs. |
| Background.SweepClosesFirstEligible | src/background.js:41-55 | Completeness, with unique ids and the extension enabled: a tab that passes shouldCloseTab, whose snapshot window passes canCloseTabInWindow, and that is the first such tab of its window, is removed. |
| Popup.LoadSettings | src/popup.js:35-37 | enabled is on unless false is stored. A missing or zero timeout shows as 30, and any other value shows unchanged. A missing whitelist shows as empty. |
| Popup.ParseTimeout | src/popup.js:54 | A NaN parse or a parsed 0 is stored as 30. Any other integer is stored as is, negatives included, so the stored value is never 0. |
| Popup.StoredTimeoutRoundTrip | src/popup.js:53-55 | A timeout written by the popup reads back unchanged in the popup and in the background worker. |
| Popup.PopupAgreesWithSweep | src/popup.js:35-37 | The popup and the worker read the same enabled flag and whitelist. They read the same timeout unless 0 is stored. |
| Popup.AddSite | src/popup.js:60-63 | A hostname that is absent or empty, or already listed, leaves the list unchanged. Otherwise the hostname is appended: the length grows by one and the old list is a prefix. A list without duplicates stays without duplicates. |
| Popup.AddCurrentSite | src/popup.js:58-65 | The active tab's parsed hostname, as parsed and not lower-cased, is appended exactly when it is truthy and not yet listed. Otherwise the list is unchanged, so no duplicate is ever appended. |
| Popup.RemoveDomain | src/popup.js:69 | The result holds exactly the entries different from the domain, each as often as before. |
| Popup.RemoveDomainConcat | src/popup.js:69 | Removal acts on each part of a list separately, so the kept entries keep their original order. |
| Popup.RemoveAbsentDomain | src/popup.js:69 | Removing a domain that is not listed changes nothing. |
| Popup.AddThenRemove | src/popup.js:60-69 | Removing a site right after adding a new one restores the original list. |
| Popup.AddedSiteIsProtected | src/popup.js:60-62 | After any non-empty hostname is added, the library matcher accepts its lower-cased form, which is what the worker's `getHostname` yields for that site, and every subdomain of that form. |
| Popup.AddedTabStaysOpen | src/popup.js:58-65 | After "add current site" on a tab whose URL parses to a truthy hostname, `shouldCloseTab` with the worker's `getHostname` never closes that tab, whatever its idle time. |
| LibCases.DefaultTimeoutIsThirty | test/lib.test.js:10-14 | DEFAULT_TIMEOUT_MINUTES is 30, and a fresh profile sweeps with a threshold of 1800000 ms. |
| LibCases.ExactMatch | test/lib.test.js:43-45 | "example.com" matches the entry "example.com". |
| LibCases.SubdomainMatch | test/lib.test.js:47-49 | "sub.example.com" matches "example.com". |
| LibCases.DeepSubdomainMatch | test/lib.test.js:51-53 | "deep.sub.example.com" matches "example.com". |
| LibCases.UpperCaseEntryMatches | test/lib.test.js:55-57 | "example.com" matches the entry "EXAMPLE.COM". |
| LibCases.LaterEntryMatches | test/lib.test.js:71-74 | "sub.other.com" matches the second entry of ["example.com", "other.com"]. |
| LibCases.OtherDomainRejected | test/lib.test.js:59-61 | "other.com" does not match "example.com". |
| LibCases.SubstringRejected | test/lib.test.js:63-65 | "notexample.com" does not match "example.com". |
| LibCases.UpperCaseHostRejected | src/lib.js:11-18 | An upper-case hostname does not match its lower-case entry, because only entries are lower-cased. No hostname matches an empty list. |
| LibCases.ProtectedTabsStay | test/lib.test.js:81-109 | A tab idle for twice the threshold, with no URL, is closed. The same tab is kept once pinned, active or audible. |
| LibCases.IdleTabScenarios | test/lib.test.js:111-152 | Whitelisted, never-accessed, recently accessed and exactly-at-threshold tabs are kept. A tab idle for twice the threshold is closed. |
| LibCases.GuardCases | test/lib.test.js:155-189 | These windows give true, false, false and true: two free tabs; one free and one pinned; only pinned; two free and two pinned. |
| LibCases.SweepScenarios | src/background.js:41-55 | A stale tab alone in its window is kept by the sweep. A stale tab on a whitelisted site is kept whatever else is open. |
| LibCases.SweepClosesFirstOfTwo | src/background.js:41-55 | Two tabs of one window, both idle for 60 minutes under the default settings: the sweep removes exactly the first one. |

## Left out

- URL parsing: `new URL(url).hostname` runs the host parser of the WHATWG URL Standard (section 3.5, host parsing). It is the parameter `parse: string -> Option<string>`, with `None` where the constructor throws. `parseInt` is likewise an `Option<int>` input, `None` for NaN.
- Unicode case mapping: `toLowerCase` is modelled on ASCII letters only.
- JavaScript numbers: timestamps and the threshold are unbounded integers. NaN, fractional `lastAccessed` values and the loss of precision above 2^53 are not modelled.
- Stored values of unexpected types: each storage key holds a value of its declared type or nothing.
- Chrome APIs and asynchrony: alarm creation (src/background.js:21-26), `chrome.storage.local` reads and writes, `chrome.tabs.query` and `chrome.tabs.remove`. The tab snapshot and the current time are inputs.
- The unawaited `chrome.tabs.remove` (src/background.js:54): a later window query might not see an earlier removal, and that race can empty a window. The model applies removals in sequence.
- The `try/catch` logging of the alarm handler (src/background.js:57-59). The alarm-name check (line 29) is not modelled either.
- DOM rendering and event wiring in src/popup.js (lines 1-4, 16-27, 41-52, 67-68). This includes `renderWhitelist`, `saveWhitelist` and the checkbox handler, which stores the box's state.
- The second `DEFAULT_TIMEOUT_MINUTES` and `getHostname` in src/background.js:1-9 have the same value and body as those in src/lib.js. The model uses `Lib.DefaultTimeoutMinutes` and `Lib.GetHostname` for both.
- Background.SweepKeepsClosable: requires unique tab ids and removals applied in order, because only then does the window guard protect the last non-pinned tab.
- Background.SweepClosesFirstEligible: speaks only of the first eligible tab of each window. Whether a later eligible tab is removed depends on how many removals its window has already absorbed, and `Background.VisitIsLibraryDecision` states that case per iteration.
