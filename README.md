# Weekly pull-request report of the Step3 team repositories

`list_prs.py` lists, for the 44 team repositories of Kakao Tech Campus 3rd
cohort Step3 (FE and BE repositories of teams 1 to 22), the pull requests
against `main` that were updated since the most recent Friday. It prints the
open ones, then the merged ones, each state FE first and BE second, and ends
with the open count, the merged count and their total.

This project models that script in Dafny:

- `Cutoff` models `get_last_friday`. It finds the most recent Friday; the
  current Friday counts only from 09:00 on. The wall clock is passed in as a
  day ordinal (Python's `date.toordinal()`) and an hour.
- `Calendar` models the proleptic Gregorian calendar behind `datetime`.
  It has the ordinals of CPython's `_ymd2ord` and `weekday() == (ordinal + 6) % 7`.
- `Decimal` and `DateText` model the text forms involved:
  - `strftime('%Y-%m-%d')` and `strptime(..., '%Y-%m-%d')`;
  - `str.replace('Z', '+00:00')`;
  - the forms of `datetime.fromisoformat` that GitHub's `updatedAt` stamps use.
- `Recency` models `is_after_date`.
- `Roster` models `get_team_repos` as an imperative method building the list
  loop by loop. It is proved equal to the roster as a value (`TeamRoster`).
- `Report` models `main`'s four loops as imperative methods:
  - `ScanRepo` is the inner loop over one repository's pull requests;
  - `ScanSection` is one loop over the roster;
  - `ScanCategory` is one of the four loops as written, calling `get_team_repos()` afresh;
  - `ScanState` covers the FE and BE loops of one state;
  - `Count` and `Report` cover the whole run.
  Each method is proved against a specification function (`KeepRecent`,
  `Candidates`, `Section`, `StateLines`, `Summarize`, `Tally`).
- `ReportProperties` states what those functions mean in terms of the roster,
  the fetched records and `is_after_date`.

How `run_gh_command` fares is a parameter `fetch(name, state)`. It gives the
records the GitHub CLI returned, or the empty sequence when the command or its
JSON decoding failed, which is what the script's two `except` branches return
(`CalledProcessError` and `JSONDecodeError`). `fetch` is total: the other
exceptions `run_gh_command` can raise are not modelled (see "## Left out").

Exceptions that `main` does not catch are modelled as `Result.Err`. Such an
exception ends the run before the summary is printed. The model has two:

- the `OverflowError` of `today - timedelta(...)` below 0001-01-01;
- the `ValueError` of `fromisoformat`/`strptime` on text they reject.

## Model

| member | source | states |
|---|---|---|
| Cutoff.DaysSinceFriday | list_prs.py:11-14 | days_since_friday is in 0..7 and steps back to a weekday 4. It is 7 exactly when today is a Friday before 09:00, and 0 exactly when today is a Friday from 09:00 on. |
| Cutoff.LastFridayOrdinal | list_prs.py:12-16 | The cutoff day is a Friday between today-7 and today. It is today exactly on a Friday from 09:00, and today-7 exactly on a Friday before 09:00. On any other weekday it lies in today-6 .. today-1. |
| Cutoff.LastFridayIsReference | list_prs.py:8-16 | A day is "the most recent Friday, today only from 09:00" exactly when it is the day the step-back computes. |
| Cutoff.GetLastFriday | list_prs.py:8-17 | get_last_friday fails exactly when the step-back falls below 0001-01-01, and then with OverflowError. Otherwise it gives the '%Y-%m-%d' text of the date whose ordinal is the step-back (any such date). SundayAfternoon, FridayBeforeNine, FridayFromNine and CutoffTextReadsBack build on this. |
| Cutoff.CutoffTextReadsBack | list_prs.py:17 | For a cutoff in a four-digit year, the cutoff text that '%Y-%m-%d' parsing reads back is the computed Friday. |
| Cutoff.SundayAfternoon | list_prs.py:8-17 | On Sunday 2025-09-07 at 14:00 the cutoff is "2025-09-05". |
| Cutoff.FridayBeforeNine | list_prs.py:13-14 | On Friday 2025-09-12 at 08:00 the cutoff is the previous Friday, "2025-09-05". |
| Cutoff.FridayFromNine | list_prs.py:12-17 | On Friday 2025-09-12 at 09:00 the cutoff is that day, "2025-09-12". |
| Calendar.Weekday | list_prs.py:12 | weekday() is in 0..6. |
| Calendar.ToOrdinal | list_prs.py:16 | A valid date's ordinal lies within its year's range of ordinals and in 1..3652059. |
| Calendar.FromOrdinal | list_prs.py:16 | Every ordinal in 1..3652059 is the ordinal of a valid date. |
| Calendar.OrdinalRoundTrip | list_prs.py:16 | A valid date converted to its ordinal and back is unchanged. |
| Calendar.OrdinalDetermines | list_prs.py:16 | Two valid dates with the same ordinal are the same date. |
| Calendar.BeforeIsOrdinalOrder | list_prs.py:34 | The order of dates (year, then month, then day) is the order of their ordinals, equality included. |
| Calendar.DaysBeforeYearMonotone | list_prs.py:16 | Every year has at least 365 days, so later years start at later ordinals. |
| Decimal.ValueOfDigits | list_prs.py:17 | The decimal digits that '%Y' writes read back as the number. |
| Decimal.DigitsLength | list_prs.py:17 | A number has at most k digits exactly when it is below 10^k. |
| Decimal.FourDigitYears | list_prs.py:33 | A year is written with exactly four digits, the width '%Y' parsing accepts, exactly when it is in 1000..9999. |
| Decimal.DigitsInjective | list_prs.py:45 | Different team numbers are written differently. |
| Decimal.Pad2 | list_prs.py:17 | '%m' and '%d' write two digits that read back as the number. |
| DateText.FormatDate | list_prs.py:17 | strftime('%Y-%m-%d') writes the year's decimal digits, '-', the month and '-', the day; the month and day fields read back as the date's month and day. |
| DateText.ParseDate | list_prs.py:33 | strptime(..., '%Y-%m-%d') succeeds only on a valid calendar date. |
| DateText.ParseFormatRoundTrip | list_prs.py:33 | For years 1000..9999, the date that '%Y-%m-%d' formatting writes reads back as that date. |
| DateText.ParseFormatShortYear | list_prs.py:33 | For years below 1000 the written cutoff does not parse back: '%Y' writes fewer than four digits. |
| DateText.FormatDateInjective | list_prs.py:17 | Different valid dates are written differently, for every year, short years included. |
| DateText.ReplaceZ | list_prs.py:32 | After replace('Z', '+00:00') no 'Z' is left, and text without 'Z' is unchanged. |
| DateText.ReplaceZKeepsPrefix | list_prs.py:32 | The replacement leaves a prefix that has no 'Z' in place. |
| DateText.ParseOffset | list_prs.py:32 | An empty suffix is a naive value. Otherwise only "+HH:MM" or "-HH:MM" with HH < 24 and MM < 60 is accepted, giving the signed offset HH*60+MM minutes, strictly within a day. |
| DateText.ParseDateTime | list_prs.py:32 | fromisoformat succeeds only on a valid date with a valid time of day. |
| DateText.ParseWithOffsetZero | list_prs.py:32 | A date, 'T', a time and "+00:00" parse back as that date and time with offset zero. |
| DateText.ParseUtcRoundTrip | list_prs.py:32 | A GitHub UTC stamp "YYYY-MM-DDTHH:MM:SSZ", after the Z rewrite, parses back as its date and time with offset +00:00. |
| Recency.IsAfterDate | list_prs.py:30-34 | is_after_date succeeds exactly when both texts parse. It is then true exactly when the stamp's date is on or after the cutoff date. A stamp that does not parse raises ValueError on the rewritten stamp. A parsed stamp with a cutoff that does not parse raises ValueError on the cutoff. |
| Recency.IsAfterDateOnUtcStamps | list_prs.py:30-34 | On a UTC stamp and a formatted cutoff, the answer is "stamp day >= cutoff day". |
| Recency.TimeOfDayIgnored | list_prs.py:34 | Two stamps on the same day get the same answer against any cutoff. |
| Recency.WrittenDateDecides | list_prs.py:32-34 | The date compared is the one written in the stamp's first ten characters, whatever its offset. Nothing is converted to another zone. |
| Recency.SameDaySameVerdict | list_prs.py:32-34 | Two stamps that read as the same calendar day get the same answer against any cutoff. |
| Recency.SameDayIsRecent | list_prs.py:30-34 | "2025-09-05T10:00:00Z" against "2025-09-05" gives true. |
| Recency.DayBeforeIsNotRecent | list_prs.py:30-34 | "2025-09-04T23:59:59Z" against "2025-09-05" gives false. |
| Roster.TeamRoster | list_prs.py:36-54 | The roster has 44 entries. |
| Roster.GetTeamRepos | list_prs.py:36-54 | The loops build 44 entries: FE for teams 1..22, then BE for teams 1..22, in that order. This is the roster. |
| Roster.TeamName | list_prs.py:41-52 | Every name ends in '_' and its category's tag, and begins with "TEAM" for team 17 and with "Team" for every other team. |
| Roster.TeamNameShape | list_prs.py:41-52 | Team 17 is named TEAM17_FE / TEAM17_BE; every other team's name holds its number in plain decimal between "Team" and the tag, as f'Team{i}_FE' / f'Team{i}_BE' writes it. |
| Roster.TeamNameInjective | list_prs.py:41-52 | No two (team, category) pairs share a repository name. |
| Roster.RosterLayout | list_prs.py:36-54 | Entry k is FE team k+1 for k < 22 and BE team k-21 after. Entries 16 and 38 are TEAM17_FE and TEAM17_BE. |
| Roster.RosterTagIsSuffix | list_prs.py:41-52 | Every entry's category is the suffix of its name. |
| Roster.RosterNamesDistinct | list_prs.py:36-54 | No repository is listed twice. |
| Report.Candidates | list_prs.py:74-81 | Every record a loop looks at is a fetched record, in the loop's state, of a roster repository of the loop's category. |
| Report.KeepRecent | list_prs.py:81-84 | A loop that finishes lists no more lines than it looked at, and each line is a record it looked at that the verdict accepted. |
| Report.Section | list_prs.py:74-84 | Every line of a finished loop is a record fetched for its repository in the loop's state that is_after_date accepts against the cutoff. That the repository is a roster repository of the loop's category is proved in ReportProperties.SectionOfCategory and SectionMembers. |
| Report.StateLines | list_prs.py:73-97 | The FE and BE loops of one state finish exactly when both loops finish. Every line is a fetched record in that state that is_after_date accepts. |
| Report.Summarize | list_prs.py:66-138 | The loops finish exactly when both states' loops finish. The summary then carries the cutoff, each count equals the number of lines of its state, and the total is their sum. |
| Report.Tally | list_prs.py:56-138 | When get_last_friday overflows, main ends with that OverflowError. A finished run carries get_last_friday's cutoff, and its total is open_count + merged_count. |
| Report.ScanRepo | list_prs.py:81-84 | The inner loop lists what KeepRecent keeps of the repository's records, appended after what was listed before. The counter grows by the number of lines added. A ValueError stops it with that error. |
| Report.ScanSection | list_prs.py:74-84 | One roster loop skips the other category and lists exactly what KeepRecent keeps of the category's candidates, in roster order. The counter grows by the number listed. |
| Report.ScanCategory | list_prs.py:74-84 | One loop, with get_team_repos() called afresh, lists exactly the loop's Section, and the counter grows by the number of lines listed. |
| Report.ScanState | list_prs.py:73-97 | The FE loop and then the BE loop of one state share one counter. Together they list the FE section followed by the BE section, and the counter ends at the number of lines. |
| Report.Count | list_prs.py:66-138 | The four loops in script order give the summary: open and merged lines, the two counters, and the total as their sum. |
| Report.Report | list_prs.py:56-138 | main's counting is the cutoff followed by the loops. An uncaught exception from either ends the run. |
| Report.KeepRecentErrStays | list_prs.py:81-84 | Once is_after_date has raised, no later record changes the outcome. |
| Report.CandidatesAppend | list_prs.py:74-80 | The candidates of two rosters in a row are those of the first followed by those of the second. |
| ReportProperties.CandidatesMembers | list_prs.py:74-81 | A loop looks at exactly the fetched records of the roster repositories of its category. |
| ReportProperties.KeepRecentOkIff | list_prs.py:81-82 | A loop finishes exactly when is_after_date raises on none of its records. |
| ReportProperties.KeepRecentFirstError | list_prs.py:81-82 | A loop that stops does so with the first exception is_after_date raises. |
| ReportProperties.KeepRecentMembers | list_prs.py:81-84 | A line is listed exactly when its record is a candidate that is_after_date accepts. |
| ReportProperties.KeepRecentAppend | list_prs.py:81-84 | Listing keeps candidate order: two runs in a row list the first run's lines, then the second's. |
| ReportProperties.KeepRecentCount | list_prs.py:81-84 | The counter ends at the number of candidates that is_after_date accepts. |
| ReportProperties.SectionMembers | list_prs.py:74-84 | One loop's lines are exactly the fetched records of the roster repositories of its category that is_after_date accepts against the cutoff. |
| ReportProperties.SectionOfCategory | list_prs.py:75-76 | Every line of a loop is from a roster repository of that loop's category. |
| ReportProperties.StateLinesOrder | list_prs.py:73-97 | In each state, every FE line comes before every BE line. |
| ReportProperties.StateLinesMembers | list_prs.py:73-97 | One state's lines are exactly the recent fetched records of the roster in that state. |
| ReportProperties.TallySummary | list_prs.py:56-138 | The summary's cutoff is get_last_friday's. Each count is the number of lines of its state, and the total is their sum. The open (merged) lines are exactly the roster's fetched open (merged) records that is_after_date accepts. |
| ReportProperties.TallyCounts | list_prs.py:66-138 | open_count and merged_count each equal the number of candidates, FE plus BE, that pass the filter. |
| ReportProperties.FailedQueryListsNothing | list_prs.py:19-28 | A repository whose gh query failed (an empty result) has no line in that state's section. |
| ReportProperties.SectionOkIff | list_prs.py:74-84 | One loop finishes exactly when is_after_date raises on none of the records it looks at. |
| ReportProperties.SectionError | list_prs.py:74-84 | A loop that stops stops with an exception that is_after_date raised on one of its records. |
| ReportProperties.SummarizeErrIff | list_prs.py:66-138 | The loops stop early exactly when one of the four does. |
| ReportProperties.SummarizeErrIffVerdict | list_prs.py:66-138 | The loops stop early exactly when is_after_date raises on some fetched record of the roster. |
| ReportProperties.TallyErrIff | list_prs.py:56-138 | main ends in an exception exactly when get_last_friday overflows or is_after_date raises on some fetched roster record. |
| ReportProperties.TallyError | list_prs.py:56-138 | The exception is either get_last_friday's OverflowError or the one is_after_date raised on a fetched roster record. |

Some members are helpers and have no row of their own:
- `Report.RecentAt` is the verdict of list_prs.py:82 as a function value.
- `Report.Assemble` builds the summary of list_prs.py:134-138.
- `Report.CandidatesStep` is the one-step unfolding of the roster loop of list_prs.py:74-80.
- `Cutoff.CutoffIsDate` instantiates `GetLastFriday`'s contract at one date.

What these mean is stated in the rows for `Recency.IsAfterDate`, `ReportProperties.TallySummary`, `ReportProperties.TallyCounts`, `ReportProperties.CandidatesMembers` and `Cutoff.GetLastFriday`.

## Left out

- `run_gh_command` is not modelled. This covers the `gh` subprocess, its arguments (base `main`, `--limit 50`, the JSON fields) and the JSON decoding. Its outcome is the parameter `fetch`, with the empty sequence standing for both caught failures.
- The records are taken to have the five fields the query asks for. A record missing a field (a `KeyError`) is not modelled.
- The organisation prefix `kakao-tech-campus-3rd-step3/` is not modelled. `fetch` is keyed by the bare repository name, and the prefix is the same for every repository.
- `datetime.now()` is not modelled; the day ordinal and hour are parameters. The local time zone only decides which day and hour these are.
- Printing is not modelled: the headers, the `current_time` line, each listed line's text, and the `merge_date` shown for merged pull requests. The `Summary` holds what is printed (cutoff, lines, counts, total) as values. `merge_date` reparses a stamp that `is_after_date` has already accepted, so it cannot raise.
- DateText.ParseDateTime: models only the `fromisoformat` forms GitHub writes. These are `YYYY-MM-DD`, optionally followed by a separator, `HH:MM:SS` and an optional `±HH:MM` offset. Python 3.11+ also accepts fractional seconds, `HH:MM`, week dates, basic format and offsets with seconds; the model rejects these.
- DateText.ParseOffset: rejects offset minutes above 59. `fromisoformat` accepts them and adds them to the hours as long as the total stays under 24 hours, so `+05:75` reads as `+06:15` where the model gives `ValueError`. GitHub never writes such offsets.
- Report.Section: its contract does not state that each line's repository is a roster repository of the loop's category. ReportProperties.SectionOfCategory and ReportProperties.SectionMembers prove it.
- `run_gh_command` can also raise exceptions it does not catch, so they end `main`. `subprocess.run` raises `FileNotFoundError` when `gh` cannot be started, and `UnicodeDecodeError` when its output is not valid text under `text=True`. These are not modelled: `fetch` is total, so `Tally` never ends this way.
- DateText.ParseDate: models `strptime('%Y-%m-%d')` on zero-padded two-digit month and day, as `strftime` writes them. Python's `strptime` also accepts one-digit months and days, and a day padded with a space (`" 5"`); the model rejects those.
- DateText.FormatDate: follows CPython 3.12 on Linux, where `%Y` goes to glibc's `strftime` and the year is written in plain decimal without padding. Later CPython releases (issue gh-120713) and other C libraries pad `%Y` to four digits. This differs only for years below 1000. `DateText.ParseFormatShortYear` (a cutoff below year 1000 does not read back) holds under this choice only.
- Calendar.FromOrdinal: is defined by a search over years and months and proved inverse to `ToOrdinal`. CPython's 400-year-cycle `_ord2ymd` is not followed step by step.
- Report.ScanSection, Report.ScanRepo: receive the recency test as a function value (`RecentAt(cutoff)`, which applies `is_after_date`). They do not call it by name.
- `get_team_repos` is called before each of the four loops, as in the script. It builds the same list each time, which `GetTeamRepos` proves.
