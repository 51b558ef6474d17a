/** is_after_date: a pull request is recent when the calendar date of its
    updatedAt stamp, as written in the stamp's own offset, is on or after the
    cutoff date; the time of day plays no part. */
module Recency {
  import opened Outcomes
  import opened Calendar
  import opened DateText

  /** is_after_date(pr_date, cutoff_date). The stamp is read first, so a bad
      stamp raises before a bad cutoff would. */
  function IsAfterDate(prDate: string, cutoffDate: string): (r: Result<bool>)
    ensures r.Ok? <==> ParseDateTime(ReplaceZ(prDate)).Ok? && ParseDate(cutoffDate).Ok?
    ensures r.Ok? ==> r.value == (ToOrdinal(ParseDateTime(ReplaceZ(prDate)).value.date)
                                  >= ToOrdinal(ParseDate(cutoffDate).value))
    ensures ParseDateTime(ReplaceZ(prDate)).Err? ==> r == Err(ValueError(ReplaceZ(prDate)))
    ensures ParseDateTime(ReplaceZ(prDate)).Ok? && ParseDate(cutoffDate).Err? ==> r == Err(ValueError(cutoffDate))
  {
    match ParseDateTime(ReplaceZ(prDate))
    case Err(e) => Err(e)
    case Ok(stamp) =>
      match ParseDate(cutoffDate)
      case Err(e) => Err(e)
      case Ok(cutoff) =>
        BeforeIsOrdinalOrder(stamp.date, cutoff);
        Ok(!Before(stamp.date, cutoff))
  }

  /** On GitHub's UTC stamps and a formatted cutoff, the filter is exactly
      "the stamp's day is not before the cutoff day". */
  lemma IsAfterDateOnUtcStamps(d: Date, hour: nat, minute: nat, second: nat, cutoff: Date)
    requires ValidDate(d) && d.year >= 1000 && hour < 24 && minute < 60 && second < 60
    requires ValidDate(cutoff) && cutoff.year >= 1000
    ensures IsAfterDate(FormatUtc(d, hour, minute, second), FormatDate(cutoff))
            == Ok(ToOrdinal(d) >= ToOrdinal(cutoff))
  {
    ParseUtcRoundTrip(d, hour, minute, second);
    ParseFormatRoundTrip(cutoff);
  }

  /** The time of day is discarded: two stamps on the same day get the same
      answer against any cutoff text. */
  lemma TimeOfDayIgnored(d: Date, h1: nat, m1: nat, s1: nat, h2: nat, m2: nat, s2: nat, cutoffDate: string)
    requires ValidDate(d) && d.year >= 1000
    requires h1 < 24 && m1 < 60 && s1 < 60 && h2 < 24 && m2 < 60 && s2 < 60
    ensures IsAfterDate(FormatUtc(d, h1, m1, s1), cutoffDate) == IsAfterDate(FormatUtc(d, h2, m2, s2), cutoffDate)
  {
    ParseUtcRoundTrip(d, h1, m1, s1);
    ParseUtcRoundTrip(d, h2, m2, s2);
    SameDaySameVerdict(FormatUtc(d, h1, m1, s1), FormatUtc(d, h2, m2, s2), cutoffDate);
  }

  /** Two stamps that read as the same calendar day get the same verdict. */
  lemma SameDaySameVerdict(p1: string, p2: string, cutoffDate: string)
    requires ParseDateTime(ReplaceZ(p1)).Ok? && ParseDateTime(ReplaceZ(p2)).Ok?
    requires ParseDateTime(ReplaceZ(p1)).value.date == ParseDateTime(ReplaceZ(p2)).value.date
    ensures IsAfterDate(p1, cutoffDate) == IsAfterDate(p2, cutoffDate)
  {
  }

  /** Whatever offset a stamp carries, the date compared is the one written in
      its first ten characters: nothing is converted to another zone. */
  lemma WrittenDateDecides(prDate: string, cutoffDate: string)
    requires |prDate| >= 10 && 'Z' !in prDate[..10]
    requires ParseDateTime(ReplaceZ(prDate)).Ok? && ParseDate(cutoffDate).Ok?
    ensures ParseDate(prDate[..10]).Ok?
    ensures IsAfterDate(prDate, cutoffDate)
            == Ok(ToOrdinal(ParseDate(prDate[..10]).value) >= ToOrdinal(ParseDate(cutoffDate).value))
  {
    ReplaceZKeepsPrefix(prDate, 10);
    var rewritten := ReplaceZ(prDate);
    assert rewritten[..10] == prDate[..10];
    assert ParseDateTime(rewritten).value.date == ParseDate(prDate[..10]).value;
  }

  lemma FirstFridayStamp()
    ensures FormatUtc(Date(2025, 9, 5), 10, 0, 0) == "2025-09-05T10:00:00Z"
  {
    FormatFirstFriday();
    assert FormatTime(10, 0, 0) == "10:00:00";
  }

  lemma ThursdayNightStamp()
    ensures FormatUtc(Date(2025, 9, 4), 23, 59, 59) == "2025-09-04T23:59:59Z"
  {
    FormatThursday();
    assert FormatTime(23, 59, 59) == "23:59:59";
  }

  /** A stamp from the cutoff day itself is kept, whatever its time. */
  lemma SameDayIsRecent()
    ensures IsAfterDate("2025-09-05T10:00:00Z", "2025-09-05") == Ok(true)
  {
    IsAfterDateOnUtcStamps(Date(2025, 9, 5), 10, 0, 0, Date(2025, 9, 5));
    FirstFridayStamp();
    FormatFirstFriday();
  }

  /** A stamp one second before the cutoff day starts is dropped. */
  lemma DayBeforeIsNotRecent()
    ensures IsAfterDate("2025-09-04T23:59:59Z", "2025-09-05") == Ok(false)
  {
    IsAfterDateOnUtcStamps(Date(2025, 9, 4), 23, 59, 59, Date(2025, 9, 5));
    ThursdayNightStamp();
    FormatFirstFriday();
  }
}
