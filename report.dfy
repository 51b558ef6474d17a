/** The counting part of main: for each state (open, then merged) and each
    category (FE, then BE) it walks the roster, fetches the repository's pull
    requests and lists and counts those that pass is_after_date. The outcome
    of run_gh_command is the parameter fetch: the records the GitHub CLI
    returned, or the empty sequence when the command or its JSON failed. */
module Report {
  import opened Outcomes
  import opened Calendar
  import opened Cutoff
  import opened Recency
  import opened Roster

  /** The --state argument of the query. */
  datatype QueryState = Open | Merged

  /** One record of the query's JSON: number, title, headRefName, state, updatedAt. */
  datatype PullRequest = PullRequest(number: int, title: string, headRefName: string, state: string, updatedAt: string)

  /** One line of the report: the repository and the pull request it shows. */
  datatype Listed = Listed(repo: string, pr: PullRequest)

  /** The counts printed in the summary, with the lines they count. */
  datatype Summary = Summary(cutoff: string, openLines: seq<Listed>, mergedLines: seq<Listed>,
                             openCount: nat, mergedCount: nat, total: nat)

  /** The verdict main asks of each pull request: is_after_date on its
      updatedAt against the cutoff. */
  function RecentAt(cutoff: string): (recent: PullRequest -> Result<bool>)
    ensures forall pr :: recent(pr) == IsAfterDate(pr.updatedAt, cutoff)
  {
    (pr: PullRequest) => IsAfterDate(pr.updatedAt, cutoff)
  }

  /** The lines one repository's pull requests would give, all of them. */
  function Listings(name: string, prs: seq<PullRequest>): seq<Listed> {
    seq(|prs|, j requires 0 <= j < |prs| => Listed(name, prs[j]))
  }

  /** What one roster entry contributes to a loop over a category: its fetched
      pull requests when it is of that category, nothing otherwise. */
  function Entries(repo: Repo, cat: Category, state: QueryState,
                   fetch: (string, QueryState) -> seq<PullRequest>): seq<Listed>
  {
    if repo.category == cat then Listings(repo.name, fetch(repo.name, state)) else []
  }

  /** Every fetched pull request of the repositories of one category, in roster order. */
  function Candidates(repos: seq<Repo>, cat: Category, state: QueryState,
                      fetch: (string, QueryState) -> seq<PullRequest>): (cs: seq<Listed>)
    ensures forall x :: x in cs ==> Repo(x.repo, cat) in repos && x.pr in fetch(x.repo, state)
  {
    if repos == [] then []
    else
      Candidates(repos[..|repos| - 1], cat, state, fetch) + Entries(repos[|repos| - 1], cat, state, fetch)
  }

  /** The candidates whose pull request passes recent, in order. The first
      verdict that is an exception ends the run with it, as nothing catches it. */
  function KeepRecent(cs: seq<Listed>, recent: PullRequest -> Result<bool>): (r: Result<seq<Listed>>)
    ensures r.Ok? ==> |r.value| <= |cs|
    ensures r.Ok? ==> forall x :: x in r.value ==> x in cs && recent(x.pr) == Ok(true)
  {
    if cs == [] then Ok([])
    else
      match KeepRecent(cs[..|cs| - 1], recent)
      case Err(e) => Err(e)
      case Ok(kept) =>
        var last := cs[|cs| - 1];
        match recent(last.pr)
        case Err(e) => Err(e)
        case Ok(passes) => Ok(if passes then kept + [last] else kept)
  }

  /** What one of main's four loops lists. */
  function Section(cat: Category, state: QueryState, cutoff: string,
                   fetch: (string, QueryState) -> seq<PullRequest>): (r: Result<seq<Listed>>)
    ensures r.Ok? ==> forall x :: x in r.value ==>
              x.pr in fetch(x.repo, state) && IsAfterDate(x.pr.updatedAt, cutoff) == Ok(true)
  {
    KeepRecent(Candidates(TeamRoster(), cat, state, fetch), RecentAt(cutoff))
  }

  /** What the FE loop and then the BE loop of one state list together. */
  function StateLines(state: QueryState, cutoff: string,
                      fetch: (string, QueryState) -> seq<PullRequest>): (r: Result<seq<Listed>>)
    ensures r.Ok? <==> Section(FE, state, cutoff, fetch).Ok? && Section(BE, state, cutoff, fetch).Ok?
    ensures r.Ok? ==> forall x :: x in r.value ==>
              x.pr in fetch(x.repo, state) && IsAfterDate(x.pr.updatedAt, cutoff) == Ok(true)
  {
    match Section(FE, state, cutoff, fetch)
    case Err(e) => Err(e)
    case Ok(fe) =>
      match Section(BE, state, cutoff, fetch)
      case Err(e) => Err(e)
      case Ok(be) => Ok(fe + be)
  }

  /** The summary of a run that listed open and merged: each count is the
      number of lines of its state. */
  function Assemble(cutoff: string, open: seq<Listed>, merged: seq<Listed>): (s: Summary)
    ensures s.openLines == open && s.mergedLines == merged
    ensures s.total == s.openCount + s.mergedCount
  {
    Summary(cutoff, open, merged, |open|, |merged|, |open| + |merged|)
  }

  /** Counters that agree with the lines give the summary Assemble builds. */
  lemma CountsAssemble(cutoff: string, open: seq<Listed>, merged: seq<Listed>, openCount: nat, mergedCount: nat)
    requires openCount == |open| && mergedCount == |merged|
    ensures Summary(cutoff, open, merged, openCount, mergedCount, openCount + mergedCount) == Assemble(cutoff, open, merged)
  {
  }

  /** What main reports once it has its cutoff: the open and the merged lines
      in the order the script runs its loops, each count the number of lines
      listed, and the total their sum. */
  function Summarize(cutoff: string, fetch: (string, QueryState) -> seq<PullRequest>): (r: Result<Summary>)
    ensures r.Ok? <==> StateLines(Open, cutoff, fetch).Ok? && StateLines(Merged, cutoff, fetch).Ok?
    ensures r.Ok? ==> r.value.cutoff == cutoff && r.value.total == r.value.openCount + r.value.mergedCount
    ensures r.Ok? ==> r.value.openCount == |r.value.openLines| && r.value.mergedCount == |r.value.mergedLines|
  {
    match StateLines(Open, cutoff, fetch)
    case Err(e) => Err(e)
    case Ok(open) =>
      match StateLines(Merged, cutoff, fetch)
      case Err(e) => Err(e)
      case Ok(merged) => Ok(Assemble(cutoff, open, merged))
  }

  /** What main reports: nothing but the exception when the cutoff cannot be
      computed, the summary from that cutoff otherwise. */
  function Tally(today: int, hour: int, fetch: (string, QueryState) -> seq<PullRequest>): (r: Result<Summary>)
    requires 1 <= today <= MaxOrdinal && 0 <= hour < 24
    ensures GetLastFriday(today, hour).Err? ==> r == Err(OverflowError)
    ensures r.Ok? ==> GetLastFriday(today, hour).Ok? && r.value.cutoff == GetLastFriday(today, hour).value
    ensures r.Ok? ==> r.value.total == r.value.openCount + r.value.mergedCount
  {
    match GetLastFriday(today, hour)
    case Err(e) => Err(e)
    case Ok(cutoff) => Summarize(cutoff, fetch)
  }

  lemma {:induction false} CandidatesAppend(a: seq<Repo>, b: seq<Repo>, cat: Category, state: QueryState,
                                            fetch: (string, QueryState) -> seq<PullRequest>)
    ensures Candidates(a + b, cat, state, fetch) == Candidates(a, cat, state, fetch) + Candidates(b, cat, state, fetch)
    decreases |b|
  {
    if b == [] {
      assert a + b == a;
    } else {
      var init, last := b[..|b| - 1], b[|b| - 1];
      assert b == init + [last];
      CandidatesAppend(a, init, cat, state, fetch);
      CandidatesAppendStep(a, init, last, cat, state, fetch);
    }
  }

  /** One induction step of CandidatesAppend: appending a roster entry to b. */
  lemma CandidatesAppendStep(a: seq<Repo>, init: seq<Repo>, last: Repo, cat: Category, state: QueryState,
                             fetch: (string, QueryState) -> seq<PullRequest>)
    requires Candidates(a + init, cat, state, fetch) == Candidates(a, cat, state, fetch) + Candidates(init, cat, state, fetch)
    ensures Candidates(a + (init + [last]), cat, state, fetch)
            == Candidates(a, cat, state, fetch) + Candidates(init + [last], cat, state, fetch)
  {
    Regroup(a, init, [last]);
    CandidatesStep(init, last, cat, state, fetch);
    CandidatesStep(a + init, last, cat, state, fetch);
    Regroup(Candidates(a, cat, state, fetch), Candidates(init, cat, state, fetch), Entries(last, cat, state, fetch));
  }

  /** A sequence is its first i elements followed by the rest. */
  lemma SplitAt<T>(s: seq<T>, i: nat)
    requires i <= |s|
    ensures s[..i] + s[i..] == s
  {
  }

  /** Concatenation is associative; stated apart so that the proof sees nothing else. */
  lemma Regroup<T>(x: seq<T>, y: seq<T>, z: seq<T>)
    ensures (x + y) + z == x + (y + z)
  {
  }

  /** Candidates one roster entry further. */
  lemma CandidatesStep(front: seq<Repo>, last: Repo, cat: Category, state: QueryState,
                       fetch: (string, QueryState) -> seq<PullRequest>)
    ensures Candidates(front + [last], cat, state, fetch)
            == Candidates(front, cat, state, fetch) + Entries(last, cat, state, fetch)
  {
    assert (front + [last])[..|front|] == front;
  }

  lemma ListingsAppend(name: string, p: seq<PullRequest>, q: seq<PullRequest>)
    ensures Listings(name, p + q) == Listings(name, p) + Listings(name, q)
  {
  }

  /** The listings of a repository one pull request further. */
  lemma ListingsSnoc(done: seq<Listed>, name: string, prs: seq<PullRequest>, j: nat)
    requires j < |prs|
    ensures done + Listings(name, prs[..j + 1]) == (done + Listings(name, prs[..j])) + [Listed(name, prs[j])]
  {
    assert prs[..j + 1] == prs[..j] + [prs[j]];
    ListingsAppend(name, prs[..j], [prs[j]]);
    Regroup(done, Listings(name, prs[..j]), [Listed(name, prs[j])]);
  }

  /** The listings of a repository split after the first i pull requests. */
  lemma ListingsRest(done: seq<Listed>, name: string, prs: seq<PullRequest>, i: nat)
    requires i <= |prs|
    ensures done + Listings(name, prs) == (done + Listings(name, prs[..i])) + Listings(name, prs[i..])
  {
    assert prs == prs[..i] + prs[i..];
    ListingsAppend(name, prs[..i], prs[i..]);
    Regroup(done, Listings(name, prs[..i]), Listings(name, prs[i..]));
  }

  /** Once a stamp has failed, nothing after it changes the outcome. */
  lemma {:induction false} KeepRecentErrStays(a: seq<Listed>, b: seq<Listed>, recent: PullRequest -> Result<bool>)
    requires KeepRecent(a, recent).Err?
    ensures KeepRecent(a + b, recent) == KeepRecent(a, recent)
    decreases |b|
  {
    if b == [] {
      assert a + b == a;
    } else {
      assert (a + b)[..|a + b| - 1] == a + b[..|b| - 1];
      KeepRecentErrStays(a, b[..|b| - 1], recent);
    }
  }

  /** KeepRecent one candidate further. */
  lemma KeepRecentSnoc(cs: seq<Listed>, x: Listed, recent: PullRequest -> Result<bool>)
    ensures KeepRecent(cs + [x], recent)
            == match KeepRecent(cs, recent)
               case Err(e) => Err(e)
               case Ok(kept) =>
                 match recent(x.pr)
                 case Err(e) => Err(e)
                 case Ok(passes) => Ok(if passes then kept + [x] else kept)
  {
    assert (cs + [x])[..|cs|] == cs;
  }

  /** A stamp that fails in the first i roster entries fails the whole section. */
  lemma SectionErrStays(repos: seq<Repo>, i: nat, cat: Category, state: QueryState, recent: PullRequest -> Result<bool>,
                        fetch: (string, QueryState) -> seq<PullRequest>)
    requires i <= |repos| && KeepRecent(Candidates(repos[..i], cat, state, fetch), recent).Err?
    ensures KeepRecent(Candidates(repos, cat, state, fetch), recent)
            == KeepRecent(Candidates(repos[..i], cat, state, fetch), recent)
  {
    SplitAt(repos, i);
    CandidatesAppend(repos[..i], repos[i..], cat, state, fetch);
    KeepRecentErrStays(Candidates(repos[..i], cat, state, fetch), Candidates(repos[i..], cat, state, fetch), recent);
  }

  /** The inner loop of main over one repository's pull requests: keep those
      that pass is_after_date, adding one to the running counter for each. */
  method ScanRepo(name: string, prs: seq<PullRequest>, recent: PullRequest -> Result<bool>,
                  ghost done: seq<Listed>, listed: seq<Listed>, count: nat)
    returns (outcome: Result<seq<Listed>>, newCount: nat)
    requires KeepRecent(done, recent) == Ok(listed)
    ensures outcome == KeepRecent(done + Listings(name, prs), recent)
    ensures outcome.Ok? ==> newCount == count + |outcome.value| - |listed|
  {
    var kept := listed;
    newCount := count;
    assert done + Listings(name, prs[..0]) == done;
    for j := 0 to |prs|
      invariant KeepRecent(done + Listings(name, prs[..j]), recent) == Ok(kept)
      invariant newCount == count + |kept| - |listed|
    {
      ghost var before := done + Listings(name, prs[..j]);
      ListingsSnoc(done, name, prs, j);
      KeepRecentSnoc(before, Listed(name, prs[j]), recent);
      var verdict := recent(prs[j]);
      if verdict.Err? {
        ghost var failed := before + [Listed(name, prs[j])];
        ListingsRest(done, name, prs, j + 1);
        KeepRecentErrStays(failed, Listings(name, prs[j + 1..]), recent);
        return Err(verdict.error), newCount;
      }
      if verdict.value {
        kept := kept + [Listed(name, prs[j])];
        newCount := newCount + 1;
      }
    }
    assert prs[..|prs|] == prs;
    outcome := Ok(kept);
  }

  /** One of main's four loops: walk the roster, skip the other category, and
      scan each remaining repository's fetched pull requests. */
  method ScanSection(repos: seq<Repo>, cat: Category, state: QueryState, recent: PullRequest -> Result<bool>,
                     fetch: (string, QueryState) -> seq<PullRequest>, count: nat)
    returns (outcome: Result<seq<Listed>>, newCount: nat)
    ensures outcome == KeepRecent(Candidates(repos, cat, state, fetch), recent)
    ensures outcome.Ok? ==> newCount == count + |outcome.value|
  {
    var listed: seq<Listed> := [];
    newCount := count;
    for i := 0 to |repos|
      invariant KeepRecent(Candidates(repos[..i], cat, state, fetch), recent) == Ok(listed)
      invariant newCount == count + |listed|
    {
      var repo := repos[i];
      assert repos[..i + 1] == repos[..i] + [repo];
      CandidatesStep(repos[..i], repo, cat, state, fetch);
      ghost var done := Candidates(repos[..i], cat, state, fetch);
      if repo.category != cat {
        assert done + [] == done;
        continue;
      }
      var prs := fetch(repo.name, state);
      var scanned;
      scanned, newCount := ScanRepo(repo.name, prs, recent, done, listed, newCount);
      if scanned.Err? {
        SectionErrStays(repos, i + 1, cat, state, recent, fetch);
        return scanned, newCount;
      }
      listed := scanned.value;
    }
    assert repos[..|repos|] == repos;
    outcome := Ok(listed);
  }

  /** The FE loop and then the BE loop of one state, both adding to the same counter. */
  method ScanState(state: QueryState, cutoff: string, fetch: (string, QueryState) -> seq<PullRequest>)
    returns (outcome: Result<seq<Listed>>, count: nat)
    ensures outcome == StateLines(state, cutoff, fetch)
    ensures outcome.Ok? ==> count == |outcome.value|
  {
    var fe, be;
    fe, count := ScanCategory(FE, state, cutoff, fetch, 0);
    if fe.Err? {
      return fe, count;
    }
    be, count := ScanCategory(BE, state, cutoff, fetch, count);
    if be.Err? {
      return be, count;
    }
    outcome := Ok(fe.value + be.value);
  }

  /** One of main's four loops as the script writes it: get_team_repos()
      afresh, then the walk over it with is_after_date against the cutoff. */
  method ScanCategory(cat: Category, state: QueryState, cutoff: string,
                      fetch: (string, QueryState) -> seq<PullRequest>, count: nat)
    returns (outcome: Result<seq<Listed>>, newCount: nat)
    ensures outcome == Section(cat, state, cutoff, fetch)
    ensures outcome.Ok? ==> newCount == count + |outcome.value|
  {
    var roster := GetTeamRepos();
    outcome, newCount := ScanSection(roster, cat, state, RecentAt(cutoff), fetch, count);
  }

  /** main's loops once the cutoff is known: the open loops, the merged
      loops, and the total as the sum of the two counters. */
  method Count(cutoff: string, fetch: (string, QueryState) -> seq<PullRequest>)
    returns (outcome: Result<Summary>)
    ensures outcome == Summarize(cutoff, fetch)
  {
    var open, openCount := ScanState(Open, cutoff, fetch);
    if open.Err? {
      return Err(open.error);
    }
    var merged, mergedCount := ScanState(Merged, cutoff, fetch);
    if merged.Err? {
      return Err(merged.error);
    }
    CountsAssemble(cutoff, open.value, merged.value, openCount, mergedCount);
    outcome := Ok(Summary(cutoff, open.value, merged.value, openCount, mergedCount, openCount + mergedCount));
  }

  /** main's counting: the cutoff first, then the loops. */
  method Report(today: int, hour: int, fetch: (string, QueryState) -> seq<PullRequest>)
    returns (outcome: Result<Summary>)
    requires 1 <= today <= MaxOrdinal && 0 <= hour < 24
    ensures outcome == Tally(today, hour, fetch)
  {
    var lastFriday := GetLastFriday(today, hour);
    if lastFriday.Err? {
      return Err(lastFriday.error);
    }
    outcome := Count(lastFriday.value, fetch);
  }
}
