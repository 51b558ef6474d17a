/** What main's loops promise, stated against the roster, the fetched pull
    requests and is_after_date rather than against the loops themselves. */
module ReportProperties {
  import opened Outcomes
  import opened Calendar
  import opened Cutoff
  import opened Recency
  import opened Roster
  import opened Report

  /** Positions of the candidates whose pull request passes. */
  function Passing(cs: seq<Listed>, recent: PullRequest -> Result<bool>): (p: set<nat>)
    ensures forall i :: i in p ==> i < |cs|
  {
    set i: nat | i < |cs| && recent(cs[i].pr) == Ok(true)
  }

  lemma ListingsMembers(name: string, prs: seq<PullRequest>)
    ensures forall x :: x in Listings(name, prs) <==> x.repo == name && x.pr in prs
  {
    forall x: Listed | x.repo == name && x.pr in prs
      ensures x in Listings(name, prs)
    {
      var j :| 0 <= j < |prs| && prs[j] == x.pr;
      assert Listings(name, prs)[j] == x;
    }
  }

  /** The candidates are exactly the fetched pull requests of the roster
      entries of the category. */
  lemma {:induction false} CandidatesMembers(repos: seq<Repo>, cat: Category, state: QueryState,
                                             fetch: (string, QueryState) -> seq<PullRequest>)
    ensures forall x :: x in Candidates(repos, cat, state, fetch)
                        <==> exists r :: r in repos && r.category == cat && x.repo == r.name && x.pr in fetch(r.name, state)
    decreases |repos|
  {
    if repos != [] {
      var init := repos[..|repos| - 1];
      var last := repos[|repos| - 1];
      CandidatesMembers(init, cat, state, fetch);
      ListingsMembers(last.name, fetch(last.name, state));
      assert repos == init + [last];
      forall x: Listed
        ensures x in Candidates(repos, cat, state, fetch)
                <==> exists r :: r in repos && r.category == cat && x.repo == r.name && x.pr in fetch(r.name, state)
      {
        if exists r :: r in repos && r.category == cat && x.repo == r.name && x.pr in fetch(r.name, state) {
          var r :| r in repos && r.category == cat && x.repo == r.name && x.pr in fetch(r.name, state);
          if r != last {
            assert r in init;
          }
        }
      }
    }
  }

  /** KeepRecent succeeds exactly when every verdict does. */
  lemma {:induction false} KeepRecentOkIff(cs: seq<Listed>, recent: PullRequest -> Result<bool>)
    ensures KeepRecent(cs, recent).Ok? <==> forall i :: 0 <= i < |cs| ==> recent(cs[i].pr).Ok?
    decreases |cs|
  {
    if cs != [] {
      var init := cs[..|cs| - 1];
      KeepRecentOkIff(init, recent);
      assert forall i :: 0 <= i < |init| ==> init[i] == cs[i];
    }
  }

  /** A failing run fails with the first verdict that is an exception. */
  lemma {:induction false} KeepRecentFirstError(cs: seq<Listed>, recent: PullRequest -> Result<bool>, e: Failure)
    requires KeepRecent(cs, recent) == Err(e)
    ensures exists i :: 0 <= i < |cs| && recent(cs[i].pr) == Err(e)
                        && forall j :: 0 <= j < i ==> recent(cs[j].pr).Ok?
    decreases |cs|
  {
    var init := cs[..|cs| - 1];
    assert forall i :: 0 <= i < |init| ==> init[i] == cs[i];
    if KeepRecent(init, recent).Err? {
      KeepRecentFirstError(init, recent, e);
      var i :| 0 <= i < |init| && recent(init[i].pr) == Err(e)
                && forall j :: 0 <= j < i ==> recent(init[j].pr).Ok?;
      assert recent(cs[i].pr) == Err(e);
    } else {
      KeepRecentOkIff(init, recent);
      assert recent(cs[|init|].pr) == Err(e);
    }
  }

  /** What is kept is exactly the candidates that pass. */
  lemma {:induction false} KeepRecentMembers(cs: seq<Listed>, recent: PullRequest -> Result<bool>, kept: seq<Listed>)
    requires KeepRecent(cs, recent) == Ok(kept)
    ensures forall x :: x in kept <==> x in cs && recent(x.pr) == Ok(true)
    decreases |cs|
  {
    if cs != [] {
      var init := cs[..|cs| - 1];
      var last := cs[|cs| - 1];
      var before := KeepRecent(init, recent).value;
      KeepRecentMembers(init, recent, before);
      assert cs == init + [last];
    }
  }

  /** Each passing candidate is kept once, in order: the kept lines of two
      runs in a row are those of the first followed by those of the second. */
  lemma {:induction false} KeepRecentAppend(a: seq<Listed>, b: seq<Listed>, recent: PullRequest -> Result<bool>,
                                            ka: seq<Listed>, kb: seq<Listed>)
    requires KeepRecent(a, recent) == Ok(ka) && KeepRecent(b, recent) == Ok(kb)
    ensures KeepRecent(a + b, recent) == Ok(ka + kb)
    decreases |b|
  {
    if b == [] {
      assert a + b == a;
      assert ka + kb == ka;
    } else {
      var init, last := b[..|b| - 1], b[|b| - 1];
      assert b == init + [last];
      var kInit := KeepRecent(init, recent).value;
      var passes := recent(last.pr).value;
      KeepRecentAppend(a, init, recent, ka, kInit);
      KeepRecentSnoc(init, last, recent);
      KeepRecentSnoc(a + init, last, recent);
      Regroup(a, init, [last]);
      if passes {
        Regroup(ka, kInit, [last]);
      }
    }
  }

  /** Passing one candidate further. */
  lemma PassingSnoc(cs: seq<Listed>, recent: PullRequest -> Result<bool>)
    requires cs != []
    ensures var init := cs[..|cs| - 1];
            Passing(cs, recent)
            == Passing(init, recent) + (if recent(cs[|init|].pr) == Ok(true) then {|init|} else {})
  {
    var init := cs[..|cs| - 1];
    forall i: nat | i < |init|
      ensures i in Passing(cs, recent) <==> i in Passing(init, recent)
    {
      assert init[i] == cs[i];
    }
  }

  /** The counter ends at the number of candidates that pass. */
  lemma {:induction false} KeepRecentCount(cs: seq<Listed>, recent: PullRequest -> Result<bool>, kept: seq<Listed>)
    requires KeepRecent(cs, recent) == Ok(kept)
    ensures |kept| == |Passing(cs, recent)|
    decreases |cs|
  {
    if cs == [] {
      assert Passing(cs, recent) == {};
    } else {
      var init := cs[..|cs| - 1];
      var before := KeepRecent(init, recent).value;
      KeepRecentCount(init, recent, before);
      PassingSnoc(cs, recent);
      assert |init| !in Passing(init, recent);
    }
  }

  /** The lines of one of main's loops: every fetched pull request of a
      roster repository of the category that is_after_date accepts, and no other. */
  lemma SectionMembers(cat: Category, state: QueryState, cutoff: string,
                       fetch: (string, QueryState) -> seq<PullRequest>, lines: seq<Listed>)
    requires Section(cat, state, cutoff, fetch) == Ok(lines)
    ensures forall x :: x in lines
                        <==> (exists r :: r in TeamRoster() && r.category == cat && x.repo == r.name && x.pr in fetch(r.name, state))
                             && IsAfterDate(x.pr.updatedAt, cutoff) == Ok(true)
  {
    var cs := Candidates(TeamRoster(), cat, state, fetch);
    KeepRecentMembers(cs, RecentAt(cutoff), lines);
    CandidatesMembers(TeamRoster(), cat, state, fetch);
  }

  /** Every line is of a roster repository of the category. */
  predicate OfCategory(lines: seq<Listed>, cat: Category) {
    forall x :: x in lines ==> Repo(x.repo, cat) in TeamRoster()
  }

  /** One state's lines: those of the FE repositories first, then those of the BE ones. */
  lemma StateLinesOrder(state: QueryState, cutoff: string,
                        fetch: (string, QueryState) -> seq<PullRequest>, lines: seq<Listed>)
    requires StateLines(state, cutoff, fetch) == Ok(lines)
    ensures exists fe, be :: lines == fe + be && OfCategory(fe, FE) && OfCategory(be, BE)
  {
    var fe := Section(FE, state, cutoff, fetch).value;
    var be := Section(BE, state, cutoff, fetch).value;
    SectionOfCategory(FE, state, cutoff, fetch, fe);
    SectionOfCategory(BE, state, cutoff, fetch, be);
    assert lines == fe + be;
  }

  lemma SectionOfCategory(cat: Category, state: QueryState, cutoff: string,
                          fetch: (string, QueryState) -> seq<PullRequest>, lines: seq<Listed>)
    requires Section(cat, state, cutoff, fetch) == Ok(lines)
    ensures OfCategory(lines, cat)
  {
    SectionMembers(cat, state, cutoff, fetch, lines);
    forall x | x in lines
      ensures Repo(x.repo, cat) in TeamRoster()
    {
      var r :| r in TeamRoster() && r.category == cat && x.repo == r.name && x.pr in fetch(r.name, state);
      assert r == Repo(x.repo, cat);
    }
  }

  /** One state's lines are every fetched pull request of a roster repository
      in that state that is_after_date accepts, and no other. */
  lemma StateLinesMembers(state: QueryState, cutoff: string,
                          fetch: (string, QueryState) -> seq<PullRequest>, lines: seq<Listed>)
    requires StateLines(state, cutoff, fetch) == Ok(lines)
    ensures forall x :: x in lines
                        <==> (exists r :: r in TeamRoster() && x.repo == r.name && x.pr in fetch(r.name, state))
                             && IsAfterDate(x.pr.updatedAt, cutoff) == Ok(true)
  {
    var fe := Section(FE, state, cutoff, fetch).value;
    var be := Section(BE, state, cutoff, fetch).value;
    assert lines == fe + be;
    SectionMembers(FE, state, cutoff, fetch, fe);
    SectionMembers(BE, state, cutoff, fetch, be);
    BothCategories(fe, be, TeamRoster(), state, cutoff, fetch);
  }

  /** The FE lines followed by the BE lines hold the accepted pull requests of
      every repository, whatever its category. */
  lemma BothCategories(fe: seq<Listed>, be: seq<Listed>, repos: seq<Repo>, state: QueryState, cutoff: string,
                       fetch: (string, QueryState) -> seq<PullRequest>)
    requires forall x :: x in fe
                         <==> (exists r :: r in repos && r.category == FE && x.repo == r.name && x.pr in fetch(r.name, state))
                              && IsAfterDate(x.pr.updatedAt, cutoff) == Ok(true)
    requires forall x :: x in be
                         <==> (exists r :: r in repos && r.category == BE && x.repo == r.name && x.pr in fetch(r.name, state))
                              && IsAfterDate(x.pr.updatedAt, cutoff) == Ok(true)
    ensures forall x :: x in fe + be
                        <==> (exists r :: r in repos && x.repo == r.name && x.pr in fetch(r.name, state))
                             && IsAfterDate(x.pr.updatedAt, cutoff) == Ok(true)
  {
    forall x: Listed | (exists r :: r in repos && x.repo == r.name && x.pr in fetch(r.name, state))
                       && IsAfterDate(x.pr.updatedAt, cutoff) == Ok(true)
      ensures x in fe + be
    {
      var r :| r in repos && x.repo == r.name && x.pr in fetch(r.name, state);
      if r.category == FE { assert x in fe; } else { assert x in be; }
    }
  }

  /** The summary main prints: its cutoff is get_last_friday's, each count is
      the number of lines of its state, the total is their sum, and the lines
      are exactly the recent pull requests of the roster's repositories. */
  lemma TallySummary(today: int, hour: int, fetch: (string, QueryState) -> seq<PullRequest>, s: Summary)
    requires 1 <= today <= MaxOrdinal && 0 <= hour < 24
    requires Tally(today, hour, fetch) == Ok(s)
    ensures GetLastFriday(today, hour) == Ok(s.cutoff)
    ensures s.openCount == |s.openLines| && s.mergedCount == |s.mergedLines|
    ensures s.total == s.openCount + s.mergedCount
    ensures forall x :: x in s.openLines
                        <==> (exists r :: r in TeamRoster() && x.repo == r.name && x.pr in fetch(r.name, Open))
                             && IsAfterDate(x.pr.updatedAt, s.cutoff) == Ok(true)
    ensures forall x :: x in s.mergedLines
                        <==> (exists r :: r in TeamRoster() && x.repo == r.name && x.pr in fetch(r.name, Merged))
                             && IsAfterDate(x.pr.updatedAt, s.cutoff) == Ok(true)
  {
    var cutoff := GetLastFriday(today, hour).value;
    StateLinesMembers(Open, cutoff, fetch, StateLines(Open, cutoff, fetch).value);
    StateLinesMembers(Merged, cutoff, fetch, StateLines(Merged, cutoff, fetch).value);
  }

  /** Each counter ends at the number of fetched pull requests, over the
      roster's repositories in that state, that is_after_date accepts. */
  lemma TallyCounts(today: int, hour: int, fetch: (string, QueryState) -> seq<PullRequest>, s: Summary)
    requires 1 <= today <= MaxOrdinal && 0 <= hour < 24
    requires Tally(today, hour, fetch) == Ok(s)
    ensures s.openCount == |Passing(Candidates(TeamRoster(), FE, Open, fetch), RecentAt(s.cutoff))|
                           + |Passing(Candidates(TeamRoster(), BE, Open, fetch), RecentAt(s.cutoff))|
    ensures s.mergedCount == |Passing(Candidates(TeamRoster(), FE, Merged, fetch), RecentAt(s.cutoff))|
                             + |Passing(Candidates(TeamRoster(), BE, Merged, fetch), RecentAt(s.cutoff))|
  {
    var cutoff := GetLastFriday(today, hour).value;
    KeepRecentCount(Candidates(TeamRoster(), FE, Open, fetch), RecentAt(cutoff), Section(FE, Open, cutoff, fetch).value);
    KeepRecentCount(Candidates(TeamRoster(), BE, Open, fetch), RecentAt(cutoff), Section(BE, Open, cutoff, fetch).value);
    KeepRecentCount(Candidates(TeamRoster(), FE, Merged, fetch), RecentAt(cutoff), Section(FE, Merged, cutoff, fetch).value);
    KeepRecentCount(Candidates(TeamRoster(), BE, Merged, fetch), RecentAt(cutoff), Section(BE, Merged, cutoff, fetch).value);
  }

  /** A query whose gh call failed (run_gh_command gave back no records)
      puts no line of that repository in its state's section. */
  lemma FailedQueryListsNothing(today: int, hour: int, fetch: (string, QueryState) -> seq<PullRequest>,
                                s: Summary, name: string, state: QueryState)
    requires 1 <= today <= MaxOrdinal && 0 <= hour < 24
    requires Tally(today, hour, fetch) == Ok(s)
    requires fetch(name, state) == []
    ensures forall x :: x in (if state == Open then s.openLines else s.mergedLines) ==> x.repo != name
  {
    TallySummary(today, hour, fetch, s);
  }

  /** A loop runs to its end exactly when is_after_date raises on none of
      the pull requests it looks at. */
  lemma SectionOkIff(cat: Category, state: QueryState, cutoff: string,
                     fetch: (string, QueryState) -> seq<PullRequest>)
    ensures Section(cat, state, cutoff, fetch).Ok?
            <==> forall r, pr :: r in TeamRoster() && r.category == cat && pr in fetch(r.name, state)
                                 ==> IsAfterDate(pr.updatedAt, cutoff).Ok?
  {
    var cs := Candidates(TeamRoster(), cat, state, fetch);
    KeepRecentOkIff(cs, RecentAt(cutoff));
    CandidatesMembers(TeamRoster(), cat, state, fetch);
    VerdictsOverMembers(cs, TeamRoster(), cat, state, cutoff, fetch);
  }

  /** Every candidate's verdict is an answer exactly when every fetched pull
      request of a repository of the category gets one. */
  lemma VerdictsOverMembers(cs: seq<Listed>, repos: seq<Repo>, cat: Category, state: QueryState, cutoff: string,
                            fetch: (string, QueryState) -> seq<PullRequest>)
    requires forall x :: x in cs <==> exists r :: r in repos && r.category == cat && x.repo == r.name && x.pr in fetch(r.name, state)
    ensures (forall i :: 0 <= i < |cs| ==> RecentAt(cutoff)(cs[i].pr).Ok?)
            <==> forall r, pr :: r in repos && r.category == cat && pr in fetch(r.name, state)
                                 ==> IsAfterDate(pr.updatedAt, cutoff).Ok?
  {
    if forall i :: 0 <= i < |cs| ==> RecentAt(cutoff)(cs[i].pr).Ok? {
      forall r, pr | r in repos && r.category == cat && pr in fetch(r.name, state)
        ensures IsAfterDate(pr.updatedAt, cutoff).Ok?
      {
        var x := Listed(r.name, pr);
        assert x in cs;
        var i :| 0 <= i < |cs| && cs[i] == x;
        assert RecentAt(cutoff)(cs[i].pr).Ok?;
      }
    }
    if !forall i :: 0 <= i < |cs| ==> RecentAt(cutoff)(cs[i].pr).Ok? {
      var i :| 0 <= i < |cs| && !RecentAt(cutoff)(cs[i].pr).Ok?;
      assert cs[i] in cs;
    }
  }

  /** A loop that stops stops with the exception is_after_date raised on one
      of the pull requests it looks at. */
  lemma SectionError(cat: Category, state: QueryState, cutoff: string,
                     fetch: (string, QueryState) -> seq<PullRequest>, e: Failure)
    requires Section(cat, state, cutoff, fetch) == Err(e)
    ensures exists r, pr :: r in TeamRoster() && r.category == cat && pr in fetch(r.name, state)
                            && IsAfterDate(pr.updatedAt, cutoff) == Err(e)
  {
    var cs := Candidates(TeamRoster(), cat, state, fetch);
    KeepRecentFirstError(cs, RecentAt(cutoff), e);
    CandidatesMembers(TeamRoster(), cat, state, fetch);
    var i :| 0 <= i < |cs| && RecentAt(cutoff)(cs[i].pr) == Err(e)
              && forall j :: 0 <= j < i ==> RecentAt(cutoff)(cs[j].pr).Ok?;
    assert cs[i] in cs;
  }

  /** The loops stop early exactly when one of the four does. */
  lemma SummarizeErrIff(cutoff: string, fetch: (string, QueryState) -> seq<PullRequest>)
    ensures Summarize(cutoff, fetch).Err?
            <==> Section(FE, Open, cutoff, fetch).Err? || Section(BE, Open, cutoff, fetch).Err?
                 || Section(FE, Merged, cutoff, fetch).Err? || Section(BE, Merged, cutoff, fetch).Err?
  {
  }

  /** A stopped run names a pull request is_after_date raised on. */
  lemma StoppedRunHasFailure(cutoff: string, fetch: (string, QueryState) -> seq<PullRequest>)
    requires Summarize(cutoff, fetch).Err?
    ensures exists r, state, pr :: r in TeamRoster() && pr in fetch(r.name, state)
                                   && IsAfterDate(pr.updatedAt, cutoff).Err?
  {
    SummarizeErrIff(cutoff, fetch);
    var cat, state :| Section(cat, state, cutoff, fetch).Err?;
    SectionOkIff(cat, state, cutoff, fetch);
    var r, pr :| r in TeamRoster() && r.category == cat && pr in fetch(r.name, state)
                 && !IsAfterDate(pr.updatedAt, cutoff).Ok?;
    assert IsAfterDate(pr.updatedAt, cutoff).Err?;
  }

  /** A pull request is_after_date raises on stops the run. */
  lemma FailureStopsRun(cutoff: string, fetch: (string, QueryState) -> seq<PullRequest>,
                        r: Repo, state: QueryState, pr: PullRequest)
    requires r in TeamRoster() && pr in fetch(r.name, state) && IsAfterDate(pr.updatedAt, cutoff).Err?
    ensures Summarize(cutoff, fetch).Err?
  {
    SummarizeErrIff(cutoff, fetch);
    SectionOkIff(r.category, state, cutoff, fetch);
    assert Section(r.category, state, cutoff, fetch).Err?;
    assert r.category == FE || r.category == BE;
    assert state == Open || state == Merged;
  }

  /** The loops stop early exactly when is_after_date raises on some
      fetched pull request of the roster. */
  lemma SummarizeErrIffVerdict(cutoff: string, fetch: (string, QueryState) -> seq<PullRequest>)
    ensures Summarize(cutoff, fetch).Err?
            <==> exists r, state, pr :: r in TeamRoster() && pr in fetch(r.name, state)
                                       && IsAfterDate(pr.updatedAt, cutoff).Err?
  {
    if Summarize(cutoff, fetch).Err? {
      StoppedRunHasFailure(cutoff, fetch);
    }
    if exists r, state, pr :: r in TeamRoster() && pr in fetch(r.name, state)
                              && IsAfterDate(pr.updatedAt, cutoff).Err? {
      var r, state, pr :| r in TeamRoster() && pr in fetch(r.name, state)
                          && IsAfterDate(pr.updatedAt, cutoff).Err?;
      FailureStopsRun(cutoff, fetch, r, state, pr);
    }
  }

  /** main ends in an exception exactly when get_last_friday overflows or
      is_after_date raises on some fetched pull request of the roster. */
  lemma TallyErrIff(today: int, hour: int, fetch: (string, QueryState) -> seq<PullRequest>)
    requires 1 <= today <= MaxOrdinal && 0 <= hour < 24
    ensures Tally(today, hour, fetch).Err?
            <==> GetLastFriday(today, hour).Err?
                 || exists r, state, pr :: r in TeamRoster() && pr in fetch(r.name, state)
                                          && IsAfterDate(pr.updatedAt, GetLastFriday(today, hour).value).Err?
  {
    if GetLastFriday(today, hour).Ok? {
      SummarizeErrIffVerdict(GetLastFriday(today, hour).value, fetch);
    }
  }

  /** The exception main ends with is get_last_friday's overflow or one that
      is_after_date raised on a fetched pull request of the roster. */
  lemma TallyError(today: int, hour: int, fetch: (string, QueryState) -> seq<PullRequest>, e: Failure)
    requires 1 <= today <= MaxOrdinal && 0 <= hour < 24
    requires Tally(today, hour, fetch) == Err(e)
    ensures (GetLastFriday(today, hour) == Err(e) && e == OverflowError)
            || exists r, state, pr :: r in TeamRoster() && pr in fetch(r.name, state)
                                     && IsAfterDate(pr.updatedAt, GetLastFriday(today, hour).value) == Err(e)
  {
    if GetLastFriday(today, hour).Ok? {
      var cutoff := GetLastFriday(today, hour).value;
      if Section(FE, Open, cutoff, fetch).Err? {
        SectionError(FE, Open, cutoff, fetch, e);
      } else if Section(BE, Open, cutoff, fetch).Err? {
        SectionError(BE, Open, cutoff, fetch, e);
      } else if Section(FE, Merged, cutoff, fetch).Err? {
        SectionError(FE, Merged, cutoff, fetch, e);
      } else {
        SectionError(BE, Merged, cutoff, fetch, e);
      }
    }
  }
}
