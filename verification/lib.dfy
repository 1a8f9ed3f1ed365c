/** The library surface of the extension: hostname normalisation, the
    whitelist matcher, the per-tab eligibility predicate and the window guard. */
module Lib {
  import opened Wrappers
  import opened Text
  import opened Tabs

  /** Minutes of inactivity after which a tab is closed unless configured otherwise. */
  const DefaultTimeoutMinutes: int := 30

  /** `getHostname(url)`. `parse` stands for `new URL(url).hostname`, the host
      parser of the WHATWG URL Standard, with `None` where the constructor
      throws. The result is the parsed hostname, lower-cased. */
  function GetHostname(parse: string -> Option<string>, url: string): (r: Option<string>)
    ensures r.None? <==> parse(url).None?
    ensures r.Some? ==> IsLower(r.value)
    ensures r.Some? ==> Lower(r.value) == Lower(parse(url).value)
  {
    match parse(url)
    case None => None
    case Some(h) =>
      LowerIsLower(h);
      Some(Lower(h))
  }

  /** One loop iteration of `isWhitelisted`: the hostname is the entry or a
      subdomain of it; only the entry is lower-cased. */
  predicate Matches(hostname: string, entry: string) {
    var domain := Lower(entry);
    hostname == domain || EndsWith(hostname, "." + domain)
  }

  /** `isWhitelisted(hostname, whitelist)`: some entry matches. */
  function IsWhitelisted(hostname: string, whitelist: seq<string>): (r: bool)
    ensures r <==> exists i :: 0 <= i < |whitelist| && Matches(hostname, whitelist[i])
  {
    if whitelist == [] then false
    else if Matches(hostname, whitelist[0]) then true
    else
      var rest := IsWhitelisted(hostname, whitelist[1..]);
      assert forall i :: 1 <= i < |whitelist| ==> whitelist[i] == whitelist[1..][i - 1];
      rest
  }

  /** The whitelist check at the head of `shouldCloseTab`: it applies only when
      the hostname is truthy. */
  predicate HostWhitelisted(hostname: Option<string>, whitelist: seq<string>) {
    IsTruthy(hostname) && IsWhitelisted(hostname.value, whitelist)
  }

  /** `shouldCloseTab(tab, now, threshold, whitelist, getHostnameFn)`: the
      protection rules in order, then a strict staleness comparison. */
  function ShouldCloseTab(tab: Tab, now: int, threshold: int, whitelist: seq<string>,
                          getHostnameFn: string -> Option<string>): (r: bool)
    ensures tab.pinned || tab.active || tab.audible ==> !r
    ensures HostWhitelisted(getHostnameFn(OrEmpty(tab.url)), whitelist) ==> !r
    ensures !HasAccessTime(tab) ==> !r
    ensures r ==> now - tab.lastAccessed.value > threshold
    ensures !tab.pinned && !tab.active && !tab.audible
            && !HostWhitelisted(getHostnameFn(OrEmpty(tab.url)), whitelist)
            && HasAccessTime(tab)
            ==> (r <==> tab.lastAccessed.value < now - threshold)
  {
    if tab.pinned || tab.active || tab.audible then false
    else
      var hostname := getHostnameFn(OrEmpty(tab.url));
      if IsTruthy(hostname) && IsWhitelisted(hostname.value, whitelist) then false
      else if !HasAccessTime(tab) then false
      else now - tab.lastAccessed.value > threshold
  }

  /** Two distinct positions of `ts` hold non-pinned tabs. */
  predicate TwoClosable(ts: seq<Tab>) {
    exists i, j :: 0 <= i < j < |ts| && !ts[i].pinned && !ts[j].pinned
  }

  lemma {:induction false} CountFromTwoClosable(ts: seq<Tab>)
    requires TwoClosable(ts)
    ensures |Closable(ts)| > 1
  {
    var rest := ts[1..];
    var i, j :| 0 <= i < j < |ts| && !ts[i].pinned && !ts[j].pinned;
    if i == 0 {
      assert rest[j - 1] == ts[j];
      assert ts[j] in Closable(rest);
    } else {
      assert rest[i - 1] == ts[i] && rest[j - 1] == ts[j];
      CountFromTwoClosable(rest);
    }
  }

  lemma {:induction false} TwoClosableFromCount(ts: seq<Tab>)
    requires |Closable(ts)| > 1
    ensures TwoClosable(ts)
  {
    var rest := ts[1..];
    if ts[0].pinned {
      TwoClosableFromCount(rest);
      var i, j :| 0 <= i < j < |rest| && !rest[i].pinned && !rest[j].pinned;
      assert ts[i + 1] == rest[i] && ts[j + 1] == rest[j];
    } else {
      var t := Closable(rest)[0];
      assert t in Closable(rest);
      var j :| 0 <= j < |rest| && rest[j] == t;
      assert ts[j + 1] == t;
    }
  }

  /** The window holds more than one non-pinned tab exactly when two
      distinct positions of it hold non-pinned tabs. */
  lemma TwoClosableCount(ts: seq<Tab>)
    ensures |Closable(ts)| > 1 <==> TwoClosable(ts)
  {
    if TwoClosable(ts) {
      CountFromTwoClosable(ts);
    }
    if |Closable(ts)| > 1 {
      TwoClosableFromCount(ts);
    }
  }

  /** `canCloseTabInWindow(_tab, windowTabs)`: closing is allowed only when
      at least two tabs of the window are not pinned. */
  function CanCloseTabInWindow(tab: Tab, windowTabs: seq<Tab>): (r: bool)
    ensures r <==> TwoClosable(windowTabs)
  {
    TwoClosableCount(windowTabs);
    |Closable(windowTabs)| > 1
  }

  /** The matcher is an existential check: reordering the whitelist (or any
      permutation of it) does not change its answer. */
  lemma WhitelistOrderIrrelevant(hostname: string, a: seq<string>, b: seq<string>)
    requires multiset(a) == multiset(b)
    ensures IsWhitelisted(hostname, a) == IsWhitelisted(hostname, b)
  {
    if IsWhitelisted(hostname, a) {
      WhitelistedBySubset(hostname, a, b);
    }
    if IsWhitelisted(hostname, b) {
      WhitelistedBySubset(hostname, b, a);
    }
  }

  lemma WhitelistedBySubset(hostname: string, a: seq<string>, b: seq<string>)
    requires multiset(a) == multiset(b)
    requires IsWhitelisted(hostname, a)
    ensures IsWhitelisted(hostname, b)
  {
    var i :| 0 <= i < |a| && Matches(hostname, a[i]);
    assert a[i] in multiset(b);
    var j :| 0 <= j < |b| && b[j] == a[i];
  }

  /** Matching is by suffix at a sub boundary, never by substring: a match
      that is not the domain itself has a dot right before the domain. */
  lemma MatchIsDomainOrSubdomain(hostname: string, entry: string)
    requires Matches(hostname, entry)
    ensures var domain := Lower(entry);
      hostname == domain
      || (|domain| < |hostname|
          && hostname[|hostname| - |domain| - 1] == '.'
          && hostname[|hostname| - |domain|..] == domain)
  {
    var domain := Lower(entry);
    if hostname != domain {
      var n := |hostname| - |domain| - 1;
      assert hostname[n..] == "." + domain;
      assert hostname[n] == ("." + domain)[0];
      assert hostname[n + 1..] == hostname[n..][1..];
    }
  }

  /** Every subdomain of an entry, however deep, matches it. */
  lemma SubdomainMatches(sub: string, entry: string)
    ensures Matches(sub + "." + Lower(entry), entry)
  {
    assert sub + "." + Lower(entry) == sub + ("." + Lower(entry));
    EndsWithConcat(sub, "." + Lower(entry));
  }

  /** `ts.filter(...)` distributes over concatenation. */
  lemma {:induction false} ClosableConcat(a: seq<Tab>, b: seq<Tab>)
    ensures Closable(a + b) == Closable(a) + Closable(b)
  {
    if a != [] {
      ClosableConcat(a[1..], b);
      assert (a + b)[1..] == a[1..] + b;
      var head := if a[0].pinned then [] else [a[0]];
      assert Closable(a + b) == head + Closable(a[1..] + b);
      assert Closable(a) == head + Closable(a[1..]);
    } else {
      assert a + b == b;
    }
  }

  /** Pinned tabs never count: inserting one anywhere in the window does not
      change the guard's answer, and neither does the candidate tab itself. */
  lemma GuardIgnoresPinned(tab: Tab, other: Tab, a: seq<Tab>, p: Tab, b: seq<Tab>)
    requires p.pinned
    ensures CanCloseTabInWindow(tab, a + [p] + b) == CanCloseTabInWindow(other, a + b)
  {
    ClosableConcat(a + [p], b);
    ClosableConcat(a, [p]);
    ClosableConcat(a, b);
    assert Closable([p]) == [] + Closable([p][1..]);
    assert [p][1..] == [];
  }
}
