/** get_team_repos: the fixed roster of team repositories, two per team
    (front end and back end) for teams 1 to 22, with team 17's irregular name. */
module Roster {
  import opened Decimal

  const TeamCount := 22
  const IrregularTeam := 17

  datatype Category = FE | BE

  /** A roster entry: (repo_name, repo_type). */
  datatype Repo = Repo(name: string, category: Category)

  /** The category as the script spells it. */
  function Tag(c: Category): (t: string)
    ensures |t| == 2
  {
    match c
    case FE => "FE"
    case BE => "BE"
  }

  /** Team17 is spelled TEAM17; every other team is "Team" and its plain number. */
  function TeamName(i: nat, c: Category): (n: string)
    ensures |n| >= 8 && n[|n| - 3..] == "_" + Tag(c)
    ensures n[..4] == (if i == IrregularTeam then "TEAM" else "Team")
  {
    if i == IrregularTeam then "TEAM17_" + Tag(c) else "Team" + Digits(i) + "_" + Tag(c)
  }

  /** The roster as the specification of get_team_repos: the front-end entries
      of teams 1..22 in order, then the back-end entries of teams 1..22. */
  function TeamRoster(): (r: seq<Repo>)
    ensures |r| == 2 * TeamCount
  {
    seq(2 * TeamCount, k requires 0 <= k < 2 * TeamCount =>
      if k < TeamCount then Repo(TeamName(k + 1, FE), FE) else Repo(TeamName(k - TeamCount + 1, BE), BE))
  }

  /** get_team_repos(), appending entry by entry as the script does. */
  method GetTeamRepos() returns (repos: seq<Repo>)
    ensures |repos| == 2 * TeamCount
    ensures forall k :: 0 <= k < TeamCount ==> repos[k] == Repo(TeamName(k + 1, FE), FE)
    ensures forall k :: TeamCount <= k < 2 * TeamCount ==> repos[k] == Repo(TeamName(k - TeamCount + 1, BE), BE)
    ensures repos == TeamRoster()
  {
    repos := [];
    for i := 1 to TeamCount + 1
      invariant |repos| == i - 1
      invariant TeamsInOrder(repos, 0, |repos|, FE)
    {
      if i == 17 {
        repos := repos + [Repo("TEAM17_FE", FE)];
      } else {
        assert "Team" + Digits(i) + "_FE" == TeamName(i, FE);
        repos := repos + [Repo("Team" + Digits(i) + "_FE", FE)];
      }
      EntryAppended(repos, 0, FE);
    }
    for i := 1 to TeamCount + 1
      invariant |repos| == TeamCount + i - 1
      invariant TeamsInOrder(repos, 0, TeamCount, FE)
      invariant TeamsInOrder(repos, TeamCount, |repos|, BE)
    {
      ghost var before := repos;
      if i == 17 {
        repos := repos + [Repo("TEAM17_BE", BE)];
      } else {
        assert "Team" + Digits(i) + "_BE" == TeamName(i, BE);
        repos := repos + [Repo("Team" + Digits(i) + "_BE", BE)];
      }
      EntriesKept(before, repos, 0, TeamCount, FE);
      EntryAppended(repos, TeamCount, BE);
    }
    RosterOfEntries(repos);
  }

  /** Entries lo .. hi - 1 of repos are the teams 1, 2, ... of category c. */
  ghost predicate TeamsInOrder(repos: seq<Repo>, lo: nat, hi: nat, c: Category) {
    lo <= hi <= |repos| && forall k :: lo <= k < hi ==> repos[k] == Repo(TeamName(k - lo + 1, c), c)
  }

  /** The entry just appended continues the run of its category. */
  lemma EntryAppended(repos: seq<Repo>, lo: nat, c: Category)
    requires |repos| >= lo + 1 && TeamsInOrder(repos[..|repos| - 1], lo, |repos| - 1, c)
    requires repos[|repos| - 1] == Repo(TeamName(|repos| - lo, c), c)
    ensures TeamsInOrder(repos, lo, |repos|, c)
  {
  }

  /** Appending leaves the earlier entries as they were. */
  lemma EntriesKept(before: seq<Repo>, after: seq<Repo>, lo: nat, hi: nat, c: Category)
    requires TeamsInOrder(before, lo, hi, c) && |after| >= |before| && before == after[..|before|]
    ensures TeamsInOrder(after, lo, hi, c)
  {
  }

  /** Twenty-two FE entries followed by twenty-two BE entries are the roster. */
  lemma RosterOfEntries(repos: seq<Repo>)
    requires |repos| == 2 * TeamCount && TeamsInOrder(repos, 0, TeamCount, FE) && TeamsInOrder(repos, TeamCount, 2 * TeamCount, BE)
    ensures forall k :: 0 <= k < TeamCount ==> repos[k] == Repo(TeamName(k + 1, FE), FE)
    ensures forall k :: TeamCount <= k < 2 * TeamCount ==> repos[k] == Repo(TeamName(k - TeamCount + 1, BE), BE)
    ensures repos == TeamRoster()
  {
    assert forall k :: 0 <= k < 2 * TeamCount ==> repos[k] == TeamRoster()[k];
  }

  /** Team 17 reads TEAM17_FE / TEAM17_BE; every other team's name carries its
      number in plain decimal between "Team" and the tag: Team{i}_FE / Team{i}_BE. */
  lemma TeamNameShape(i: nat, c: Category)
    ensures var n := TeamName(i, c);
      && (i == IrregularTeam ==> n == "TEAM17_" + Tag(c))
      && (i != IrregularTeam ==> n[4..|n| - 3] == Digits(i))
  {
    var n, tail := TeamName(i, c), "_" + Tag(c);
    if i == IrregularTeam {
      assert n == "TEAM17" + tail;
    } else {
      var d := Digits(i);
      assert n == "Team" + d + tail;
      assert n[..4] == "Team" && n[4..|n| - 3] == d && n[|n| - 3..] == tail;
    }
  }

  /** No two (team, category) pairs share a repository name. */
  lemma TeamNameInjective(i: nat, j: nat, c: Category, d: Category)
    requires TeamName(i, c) == TeamName(j, d)
    ensures i == j && c == d
  {
    var n := TeamName(i, c);
    TeamNameShape(i, c);
    TeamNameShape(j, d);
    assert Tag(c) == n[|n| - 2..] == Tag(d);
    if i != IrregularTeam && j != IrregularTeam {
      DigitsInjective(i, j);
    }
  }

  /** The roster: 44 entries, FE for teams 1..22 then BE for teams 1..22,
      team 17 under its irregular names. */
  lemma RosterLayout()
    ensures |TeamRoster()| == 44
    ensures forall k :: 0 <= k < 22 ==> TeamRoster()[k] == Repo(TeamName(k + 1, FE), FE)
    ensures forall k :: 22 <= k < 44 ==> TeamRoster()[k] == Repo(TeamName(k - 21, BE), BE)
    ensures TeamRoster()[16] == Repo("TEAM17_FE", FE) && TeamRoster()[38] == Repo("TEAM17_BE", BE)
  {
  }

  /** The category of every entry is the suffix of its name. */
  lemma RosterTagIsSuffix(k: int)
    requires 0 <= k < 44
    ensures var n := TeamRoster()[k].name; |n| >= 2 && n[|n| - 2..] == Tag(TeamRoster()[k].category)
  {
    if k < 22 { TeamNameShape(k + 1, FE); } else { TeamNameShape(k - 21, BE); }
  }

  /** No repository is listed twice. */
  lemma RosterNamesDistinct(j: int, k: int)
    requires 0 <= j < k < 44
    ensures TeamRoster()[j].name != TeamRoster()[k].name
  {
    var r := TeamRoster();
    var tj, cj := if j < TeamCount then j + 1 else j - TeamCount + 1, if j < TeamCount then FE else BE;
    var tk, ck := if k < TeamCount then k + 1 else k - TeamCount + 1, if k < TeamCount then FE else BE;
    assert r[j] == Repo(TeamName(tj, cj), cj);
    assert r[k] == Repo(TeamName(tk, ck), ck);
    if r[j].name == r[k].name {
      TeamNameInjective(tj, tk, cj, ck);
    }
  }
}
