/** The expectations of the library's unit tests, stated about the model. */
module LibCases {
  import opened Wrappers
  import opened Tabs
  import Storage
  import Text
  import Lib
  import Background

  const ThirtyMinutes: int := Lib.DefaultTimeoutMinutes * Background.MsPerMinute

  lemma DefaultTimeoutIsThirty()
    ensures Lib.DefaultTimeoutMinutes == 30
    ensures Background.Threshold(Background.LoadConfig(Storage.Nothing)) == ThirtyMinutes
  {
  }

  /** An entry matches itself. */
  lemma ExactMatch()
    ensures Lib.IsWhitelisted("example.com", ["example.com"])
  {
    assert Text.Lower("example.com") == "example.com";
    assert Lib.Matches("example.com", ["example.com"][0]);
  }

  /** An entry matches its subdomains. */
  lemma SubdomainMatch()
    ensures Lib.IsWhitelisted("sub.example.com", ["example.com"])
  {
    assert Text.Lower("example.com") == "example.com";
    Lib.SubdomainMatches("sub", "example.com");
    assert "sub" + "." + "example.com" == "sub.example.com";
    assert Lib.Matches("sub.example.com", ["example.com"][0]);
  }

  /** An entry matches subdomains several labels deep. */
  lemma DeepSubdomainMatch()
    ensures Lib.IsWhitelisted("deep.sub.example.com", ["example.com"])
  {
    assert Text.Lower("example.com") == "example.com";
    Lib.SubdomainMatches("deep.sub", "example.com");
    assert "deep.sub" + "." + "example.com" == "deep.sub.example.com";
    assert Lib.Matches("deep.sub.example.com", ["example.com"][0]);
  }

  /** Entries are compared in lower case. */
  lemma UpperCaseEntryMatches()
    ensures Lib.IsWhitelisted("example.com", ["EXAMPLE.COM"])
  {
    assert Text.Lower("EXAMPLE.COM") == "example.com";
    assert Lib.Matches("example.com", ["EXAMPLE.COM"][0]);
  }

  /** Every entry of the list is tried. */
  lemma LaterEntryMatches()
    ensures Lib.IsWhitelisted("sub.other.com", ["example.com", "other.com"])
  {
    assert Text.Lower("other.com") == "other.com";
    Lib.SubdomainMatches("sub", "other.com");
    assert "sub" + "." + "other.com" == "sub.other.com";
    assert Lib.Matches("sub.other.com", ["example.com", "other.com"][1]);
  }

  /** A different domain does not match. */
  lemma OtherDomainRejected()
    ensures !Lib.IsWhitelisted("other.com", ["example.com"])
  {
    assert Text.Lower("example.com") == "example.com";
    assert !Text.EndsWith("other.com", ".example.com");
  }

  /** A name that merely ends in the entry is not a subdomain of it. */
  lemma SubstringRejected()
    ensures !Lib.IsWhitelisted("notexample.com", ["example.com"])
  {
    assert Text.Lower("example.com") == "example.com";
    assert "notexample.com"[2..][0] == 't' != ".example.com"[0];
    assert !Text.EndsWith("notexample.com", ".example.com");
    assert !Lib.Matches("notexample.com", "example.com");
  }

  /** The hostname is not lower-cased by the matcher, and an empty list
      matches nothing. */
  lemma UpperCaseHostRejected(h: string)
    ensures !Lib.IsWhitelisted("EXAMPLE.COM", ["example.com"])
    ensures !Lib.IsWhitelisted(h, [])
  {
    assert Text.Lower("example.com") == "example.com";
    assert !Text.EndsWith("EXAMPLE.COM", ".example.com");
  }

  function IdleTab(url: Option<string>, lastAccessed: Option<int>): Tab {
    Tab(1, 1, false, false, false, url, lastAccessed)
  }

  /** Pinned, active and audible tabs stay open even when long idle, and
      only that rule keeps them: the same tab unprotected is closed. */
  lemma ProtectedTabsStay(now: int, fn: string -> Option<string>)
    ensures var stale := IdleTab(None, Some(now - 2 * ThirtyMinutes));
      now != 2 * ThirtyMinutes ==> Lib.ShouldCloseTab(stale, now, ThirtyMinutes, [], fn)
    ensures var stale := IdleTab(None, Some(now - 2 * ThirtyMinutes));
      !Lib.ShouldCloseTab(stale.(pinned := true), now, ThirtyMinutes, [], fn)
    ensures var stale := IdleTab(None, Some(now - 2 * ThirtyMinutes));
      !Lib.ShouldCloseTab(stale.(active := true), now, ThirtyMinutes, [], fn)
    ensures var stale := IdleTab(None, Some(now - 2 * ThirtyMinutes));
      !Lib.ShouldCloseTab(stale.(audible := true), now, ThirtyMinutes, [], fn)
  {
  }

  /** The scenarios of the library tests with a real URL. */
  lemma IdleTabScenarios(now: int, parse: string -> Option<string>)
    requires parse("https://example.com") == Some("example.com")
    requires parse("https://other.com") == Some("other.com")
    ensures !Lib.ShouldCloseTab(IdleTab(Some("https://example.com"), Some(now - 2 * ThirtyMinutes)),
                                now, ThirtyMinutes, ["example.com"], Background.HostnameOf(parse))
    ensures !Lib.ShouldCloseTab(IdleTab(Some("https://other.com"), None),
                                now, ThirtyMinutes, [], Background.HostnameOf(parse))
    ensures !Lib.ShouldCloseTab(IdleTab(Some("https://other.com"), Some(now - ThirtyMinutes / 3)),
                                now, ThirtyMinutes, [], Background.HostnameOf(parse))
    ensures now != ThirtyMinutes ==>
            !Lib.ShouldCloseTab(IdleTab(Some("https://other.com"), Some(now - ThirtyMinutes)),
                                now, ThirtyMinutes, [], Background.HostnameOf(parse))
    ensures now != 2 * ThirtyMinutes ==>
            Lib.ShouldCloseTab(IdleTab(Some("https://other.com"), Some(now - 2 * ThirtyMinutes)),
                               now, ThirtyMinutes, [], Background.HostnameOf(parse))
    ensures !Lib.ShouldCloseTab(IdleTab(Some("https://other.com"), Some(now - 2 * ThirtyMinutes)),
                                now, ThirtyMinutes, ["other.com"], Background.HostnameOf(parse))
  {
    assert Text.Lower("example.com") == "example.com";
    assert Text.Lower("other.com") == "other.com";
    assert Background.HostnameOf(parse)("https://example.com") == Some("example.com");
    assert Background.HostnameOf(parse)("https://other.com") == Some("other.com");
    assert Lib.Matches("example.com", ["example.com"][0]);
    assert Lib.Matches("other.com", ["other.com"][0]);
  }

  /** The window guard on the windows of the library tests. */
  lemma GuardCases(t: Tab)
    ensures Lib.CanCloseTabInWindow(t, [IdleTab(None, None), IdleTab(None, None).(id := 2)])
    ensures !Lib.CanCloseTabInWindow(t, [IdleTab(None, None), IdleTab(None, None).(id := 2, pinned := true)])
    ensures !Lib.CanCloseTabInWindow(t, [IdleTab(None, None).(pinned := true)])
    ensures Lib.CanCloseTabInWindow(t, [IdleTab(None, None), IdleTab(None, None).(id := 2),
                                        IdleTab(None, None).(id := 3, pinned := true),
                                        IdleTab(None, None).(id := 4, pinned := true)])
  {
    var a := IdleTab(None, None);
    var b := a.(id := 2);
    var p := a.(id := 3, pinned := true);
    var q := a.(id := 4, pinned := true);
    assert !a.pinned && !b.pinned && p.pinned && q.pinned;
    assert [a, b, p, q][0] == a && [a, b, p, q][1] == b;
    assert [a, a.(id := 2, pinned := true)][1].pinned;
  }

  /** A stale tab that is its window's only closable tab stays open; an
      idle tab on a whitelisted site stays open whatever its window holds. */
  lemma SweepScenarios(now: int, parse: string -> Option<string>, others: seq<Tab>)
    requires parse("https://other.com") == Some("other.com")
    requires now != 2 * ThirtyMinutes
    requires forall t :: t in others ==> t.id != 1
    ensures var tab := IdleTab(Some("https://other.com"), Some(now - 2 * ThirtyMinutes));
      Background.Sweep(Storage.Nothing, now, parse, [tab]) == {}
    ensures var tab := IdleTab(Some("https://other.com"), Some(now - 2 * ThirtyMinutes));
      var stored := Storage.Nothing.(whitelist := Some(["other.com"]));
      tab.id !in Background.Sweep(stored, now, parse, [tab] + others)
  {
    var tab := IdleTab(Some("https://other.com"), Some(now - 2 * ThirtyMinutes));
    assert Text.Lower("other.com") == "other.com";
    var cfg := Background.LoadConfig(Storage.Nothing);
    Background.SweepClosesOnlyEligible(Storage.Nothing, now, parse, [tab]);
    var stored := Storage.Nothing.(whitelist := Some(["other.com"]));
    var all := [tab] + others;
    Background.SweepClosesOnlyEligible(stored, now, parse, all);
    assert Lib.Matches("other.com", ["other.com"][0]);
    assert Background.HostnameOf(parse)("https://other.com") == Some("other.com");
  }

  /** Two stale tabs in one window: the sweep removes the first and keeps the
      second, which has become the window's last closable tab. */
  lemma SweepClosesFirstOfTwo(now: int, parse: string -> Option<string>)
    requires parse("https://other.com") == Some("other.com")
    requires now != 2 * ThirtyMinutes
    ensures var a := IdleTab(Some("https://other.com"), Some(now - 2 * ThirtyMinutes));
      Background.Sweep(Storage.Nothing, now, parse, [a, a.(id := 2)]) == {1}
  {
    var a := IdleTab(Some("https://other.com"), Some(now - 2 * ThirtyMinutes));
    var s := [a, a.(id := 2)];
    assert Text.Lower("other.com") == "other.com";
    assert Background.HostnameOf(parse)("https://other.com") == Some("other.com");
    assert Lib.ShouldCloseTab(a, now, ThirtyMinutes, [], Background.HostnameOf(parse));
    assert UniqueIds(s);
    assert InWindow(s, 1) == s by {
      assert s[1..][1..] == [];
    }
    assert !s[0].pinned && !s[1].pinned;
    Background.SweepClosesFirstEligible(Storage.Nothing, now, parse, s, 0);
    var r := Background.Sweep(Storage.Nothing, now, parse, s);
    assert Background.Ids(s) <= {1, 2} by {
      forall t | t in s ensures t.id in {1, 2} { }
    }
    Background.SweepKeepsClosable(Storage.Nothing, now, parse, s, 0);
    Background.LiveCountCons(s, r, 1);
    Background.LiveCountCons(s[1..], r, 1);
    assert s[1..][1..] == [];
  }
}
