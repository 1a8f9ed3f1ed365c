/** The settings popup: how it reads the stored settings, how it stores an
    edited timeout, and the two whitelist edits. */
module Popup {
  import opened Wrappers
  import opened Tabs
  import opened Storage
  import Text
  import Lib
  import Background

  /** What the popup shows: the checkbox, the timeout field and the list. */
  datatype View = View(enabled: bool, timeoutMinutes: int, whitelist: seq<string>)

  /** `loadSettings`: `enabled` is on unless `false` is stored; a missing or
      zero timeout shows as the default; a missing list shows as empty. */
  function LoadSettings(stored: StoredSettings): (v: View)
    ensures v.enabled <==> stored.enabled != Some(false)
    ensures v.timeoutMinutes != 0
    ensures stored.timeoutMinutes.Some? && stored.timeoutMinutes.value != 0
            ==> v.timeoutMinutes == stored.timeoutMinutes.value
    ensures stored.timeoutMinutes.None? || stored.timeoutMinutes == Some(0)
            ==> v.timeoutMinutes == Lib.DefaultTimeoutMinutes
    ensures stored.whitelist.None? ==> v.whitelist == []
    ensures stored.whitelist.Some? ==> v.whitelist == stored.whitelist.value
  {
    View(stored.enabled != Some(false),
         if stored.timeoutMinutes.None? || stored.timeoutMinutes.value == 0
         then Lib.DefaultTimeoutMinutes else stored.timeoutMinutes.value,
         stored.whitelist.GetOr([]))
  }

  /** `parseInt(value, 10) || 30`: `parsed` is `None` where `parseInt` gives NaN. */
  function ParseTimeout(parsed: Option<int>): (minutes: int)
    ensures minutes != 0
    ensures parsed.Some? && parsed.value != 0 ==> minutes == parsed.value
    ensures parsed.None? || parsed == Some(0) ==> minutes == Lib.DefaultTimeoutMinutes
  {
    if parsed.None? || parsed.value == 0 then Lib.DefaultTimeoutMinutes else parsed.value
  }

  /** The change handler of the timeout field writes the parsed value. */
  function StoreTimeout(stored: StoredSettings, parsed: Option<int>): StoredSettings {
    stored.(timeoutMinutes := Some(ParseTimeout(parsed)))
  }

  /** A timeout written by the popup reads back unchanged, and the background
      sweep uses the very same number of minutes. */
  lemma StoredTimeoutRoundTrip(stored: StoredSettings, parsed: Option<int>)
    ensures LoadSettings(StoreTimeout(stored, parsed)).timeoutMinutes == ParseTimeout(parsed)
    ensures Background.LoadConfig(StoreTimeout(stored, parsed)).timeoutMinutes == ParseTimeout(parsed)
  {
  }

  /** The popup and the sweep read the same settings, except that a stored
      timeout of 0 shows as the default in the popup but is used as is by the
      sweep. */
  lemma PopupAgreesWithSweep(stored: StoredSettings)
    ensures var v := LoadSettings(stored);
      var c := Background.LoadConfig(stored);
      v.enabled == c.enabled && v.whitelist == c.whitelist
      && (v.timeoutMinutes == c.timeoutMinutes <==> stored.timeoutMinutes != Some(0))
  {
  }

  /** The click handler of "add current site", given the parsed hostname
      (the popup's `getHostname` does not lower-case): a truthy hostname that
      is not listed yet is appended; otherwise the list is unchanged. */
  function AddSite(whitelist: seq<string>, hostname: Option<string>): (r: seq<string>)
    ensures !IsTruthy(hostname) ==> r == whitelist
    ensures IsTruthy(hostname) && hostname.value in whitelist ==> r == whitelist
    ensures IsTruthy(hostname) && hostname.value !in whitelist
            ==> |r| == |whitelist| + 1 && r[..|whitelist|] == whitelist && r[|whitelist|] == hostname.value
    ensures NoDuplicates(whitelist) ==> NoDuplicates(r)
  {
    if IsTruthy(hostname) && hostname.value !in whitelist then whitelist + [hostname.value]
    else whitelist
  }

  /** The same handler from the active tab's URL (`tab?.url || ""`). */
  function AddCurrentSite(whitelist: seq<string>, activeUrl: Option<string>,
                          parse: string -> Option<string>): (r: seq<string>)
    ensures var hostname := parse(OrEmpty(activeUrl));
      IsTruthy(hostname) && hostname.value !in whitelist ==> r == whitelist + [hostname.value]
    ensures var hostname := parse(OrEmpty(activeUrl));
      !IsTruthy(hostname) || hostname.value in whitelist ==> r == whitelist
  {
    AddSite(whitelist, parse(OrEmpty(activeUrl)))
  }

  /** No entry occurs twice. */
  predicate NoDuplicates(whitelist: seq<string>) {
    forall i, j :: 0 <= i < j < |whitelist| ==> whitelist[i] != whitelist[j]
  }

  /** `whitelist.filter(d => d !== domain)`. */
  function RemoveDomain(whitelist: seq<string>, domain: string): (r: seq<string>)
    ensures |r| <= |whitelist|
    ensures forall d :: d in r <==> d in whitelist && d != domain
    ensures multiset(r) == multiset(whitelist)[domain := 0]
  {
    if whitelist == [] then []
    else
      assert whitelist == [whitelist[0]] + whitelist[1..];
      (if whitelist[0] == domain then [] else [whitelist[0]]) + RemoveDomain(whitelist[1..], domain)
  }

  /** `RemoveDomain` unfolded by one entry. */
  lemma RemoveDomainCons(whitelist: seq<string>, domain: string)
    requires whitelist != []
    ensures RemoveDomain(whitelist, domain)
            == (if whitelist[0] == domain then [] else [whitelist[0]]) + RemoveDomain(whitelist[1..], domain)
  {
  }

  lemma AppendAssociative(x: seq<string>, y: seq<string>, z: seq<string>)
    ensures x + (y + z) == (x + y) + z
  {
  }

  /** Removal keeps the remaining entries in their order: it acts on each part
      of a list separately. */
  lemma {:induction false} RemoveDomainConcat(a: seq<string>, b: seq<string>, domain: string)
    ensures RemoveDomain(a + b, domain) == RemoveDomain(a, domain) + RemoveDomain(b, domain)
  {
    if a != [] {
      RemoveDomainConcat(a[1..], b, domain);
      RemoveDomainCons(a, domain);
      RemoveDomainCons(a + b, domain);
      assert (a + b)[0] == a[0];
      assert (a + b)[1..] == a[1..] + b;
      AppendAssociative(if a[0] == domain then [] else [a[0]],
                        RemoveDomain(a[1..], domain), RemoveDomain(b, domain));
    } else {
      assert a + b == b;
    }
  }

  /** Removing a domain that is not listed changes nothing. */
  lemma {:induction false} RemoveAbsentDomain(whitelist: seq<string>, domain: string)
    requires domain !in whitelist
    ensures RemoveDomain(whitelist, domain) == whitelist
  {
    if whitelist != [] {
      RemoveAbsentDomain(whitelist[1..], domain);
      assert whitelist == [whitelist[0]] + whitelist[1..];
    }
  }

  /** Removing a site right after adding it restores the list. */
  lemma AddThenRemove(whitelist: seq<string>, hostname: string)
    ensures RemoveDomain(AddSite(whitelist, Some(hostname)), hostname) == RemoveDomain(whitelist, hostname)
    ensures hostname != "" && hostname !in whitelist
            ==> RemoveDomain(AddSite(whitelist, Some(hostname)), hostname) == whitelist
  {
    if hostname != "" && hostname !in whitelist {
      RemoveDomainConcat(whitelist, [hostname], hostname);
      RemoveAbsentDomain(whitelist, hostname);
      assert RemoveDomain([hostname], hostname) == [] + RemoveDomain([hostname][1..], hostname);
      assert [hostname][1..] == [];
    }
  }

  /** After a hostname has been added, the library matcher accepts its
      lower-cased form, which is what the sweep looks up, and every subdomain
      of that form. */
  lemma AddedSiteIsProtected(whitelist: seq<string>, hostname: string, sub: string)
    requires hostname != ""
    ensures Lib.IsWhitelisted(Text.Lower(hostname), AddSite(whitelist, Some(hostname)))
    ensures Lib.IsWhitelisted(sub + "." + Text.Lower(hostname), AddSite(whitelist, Some(hostname)))
  {
    var r := AddSite(whitelist, Some(hostname));
    var i :| 0 <= i < |r| && r[i] == hostname;
    assert Lib.Matches(Text.Lower(hostname), r[i]);
    Lib.SubdomainMatches(sub, hostname);
    assert Lib.Matches(sub + "." + Text.Lower(hostname), r[i]);
  }

  /** "Add current site" protects the tab it was pressed on: once its parsed
      hostname is listed, `shouldCloseTab` keeps that tab open whatever its
      idle time, with the sweep's `getHostname`. */
  lemma AddedTabStaysOpen(whitelist: seq<string>, tab: Tab, now: int, threshold: int,
                          parse: string -> Option<string>)
    requires IsTruthy(parse(OrEmpty(tab.url)))
    ensures !Lib.ShouldCloseTab(tab, now, threshold, AddCurrentSite(whitelist, tab.url, parse),
                                Background.HostnameOf(parse))
  {
    var h := parse(OrEmpty(tab.url)).value;
    var list := AddCurrentSite(whitelist, tab.url, parse);
    AddedSiteIsProtected(whitelist, h, "");
    var found := Background.HostnameOf(parse)(OrEmpty(tab.url));
    assert found == Lib.GetHostname(parse, OrEmpty(tab.url)) == Some(Text.Lower(h));
    assert |Text.Lower(h)| == |h| > 0;
    assert Lib.HostWhitelisted(found, list);
  }
}
