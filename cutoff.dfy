/** get_last_friday: the cutoff date of the report, the most recent Friday,
    where the current Friday counts only from 09:00 on. The wall clock
    (datetime.now()) is passed in as a day ordinal and an hour. */
module Cutoff {
  import opened Outcomes
  import opened Calendar
  import opened DateText

  const Friday := 4
  const RolloverHour := 9

  /** days_since_friday. Python's % with a positive modulus is never negative,
      which Dafny's Euclidean % matches. */
  function DaysSinceFriday(weekday: int, hour: int): (k: int)
    requires 0 <= weekday < 7 && 0 <= hour < 24
    ensures 0 <= k <= 7
    ensures (weekday - k) % 7 == Friday
    ensures k == 7 <==> weekday == Friday && hour < RolloverHour
    ensures k == 0 <==> weekday == Friday && hour >= RolloverHour
  {
    var k := (weekday - Friday) % 7;
    if k == 0 && hour < RolloverHour then 7 else k
  }

  /** The ordinal of today - timedelta(days=days_since_friday). */
  function LastFridayOrdinal(today: int, hour: int): (r: int)
    requires 0 <= hour < 24
    ensures Weekday(r) == Friday
    ensures today - 7 <= r <= today
    ensures r == today <==> Weekday(today) == Friday && hour >= RolloverHour
    ensures r == today - 7 <==> Weekday(today) == Friday && hour < RolloverHour
    ensures Weekday(today) != Friday ==> today - 6 <= r < today
  {
    today - DaysSinceFriday(Weekday(today), hour)
  }

  /** The intended cutoff, stated without the step-back arithmetic: a Friday
      not after today (today itself only from 09:00), with no such Friday later. */
  predicate IsReferenceFriday(today: int, hour: int, o: int) {
    && Weekday(o) == Friday
    && o <= today
    && (o == today ==> hour >= RolloverHour)
    && forall p :: o < p <= today && (p < today || hour >= RolloverHour) ==> Weekday(p) != Friday
  }

  lemma WeekdayBack(today: int, j: int)
    ensures Weekday(today - j) == (Weekday(today) - j) % 7
  {
  }

  /** The step-back computes exactly the reference Friday, and no other day is one. */
  lemma LastFridayIsReference(today: int, hour: int, o: int)
    requires 0 <= hour < 24
    ensures IsReferenceFriday(today, hour, o) <==> o == LastFridayOrdinal(today, hour)
  {
    var r := LastFridayOrdinal(today, hour);
    var k := today - r;
    forall p | r < p <= today && (p < today || hour >= RolloverHour)
      ensures Weekday(p) != Friday
    {
      WeekdayBack(today, today - p);
    }
    assert IsReferenceFriday(today, hour, r);
  }

  /** get_last_friday(): the cutoff as '%Y-%m-%d' text, or the OverflowError
      that date subtraction raises below 0001-01-01. */
  function GetLastFriday(today: int, hour: int): (r: Result<string>)
    requires 1 <= today <= MaxOrdinal && 0 <= hour < 24
    ensures r.Err? <==> LastFridayOrdinal(today, hour) < 1
    ensures r.Err? ==> r.error == OverflowError
    ensures forall d :: ValidDate(d) && ToOrdinal(d) == LastFridayOrdinal(today, hour) ==> r == Ok(FormatDate(d))
  {
    var o := LastFridayOrdinal(today, hour);
    if o < 1 then Err(OverflowError)
    else
      OrdinalDetermines(o);
      Ok(FormatDate(FromOrdinal(o)))
  }

  /** The cutoff text reads back (with '%Y-%m-%d', as is_after_date does) as
      the reference Friday, whenever that Friday lies in a four-digit year. */
  lemma CutoffTextReadsBack(today: int, hour: int)
    requires 1 <= today <= MaxOrdinal && 0 <= hour < 24
    requires LastFridayOrdinal(today, hour) > DaysBeforeYear(1000)
    ensures GetLastFriday(today, hour).Ok?
    ensures ParseDate(GetLastFriday(today, hour).value).Ok?
    ensures ToOrdinal(ParseDate(GetLastFriday(today, hour).value).value) == LastFridayOrdinal(today, hour)
    ensures IsReferenceFriday(today, hour, ToOrdinal(ParseDate(GetLastFriday(today, hour).value).value))
  {
    var o := LastFridayOrdinal(today, hour);
    var d := FromOrdinal(o);
    if d.year < 1000 {
      DaysBeforeYearMonotone(d.year + 1, 1000);
    }
    ParseFormatRoundTrip(d);
    LastFridayIsReference(today, hour, o);
  }

  /** Instantiates GetLastFriday's last ensures at one date d, so that the
      examples below never unfold GetLastFriday on a literal day. */
  lemma CutoffIsDate(today: int, hour: int, d: Date)
    requires 1 <= today <= MaxOrdinal && 0 <= hour < 24 && ValidDate(d)
    requires LastFridayOrdinal(today, hour) == ToOrdinal(d)
    ensures GetLastFriday(today, hour) == Ok(FormatDate(d))
  {
    OrdinalRoundTrip(d);
  }

  /** The day ordinals of the dates in the examples below. */
  lemma SeptemberOrdinals()
    ensures ToOrdinal(Date(2025, 9, 5)) == 739499
    ensures ToOrdinal(Date(2025, 9, 7)) == 739501
    ensures ToOrdinal(Date(2025, 9, 12)) == 739506
  {
    assert DaysBeforeYear(2025) == 739251;
    assert DaysBeforeMonth(2025, 9) == 243;
  }

  /** Sunday 2025-09-07 14:00: the cutoff is Friday 2025-09-05. */
  lemma SundayAfternoon(today: int)
    requires today == ToOrdinal(Date(2025, 9, 7))
    ensures GetLastFriday(today, 14) == Ok("2025-09-05")
  {
    SeptemberOrdinals();
    CutoffIsDate(today, 14, Date(2025, 9, 5));
    FormatFirstFriday();
  }

  /** Friday 2025-09-12 08:00: before 09:00, so the previous Friday 2025-09-05. */
  lemma FridayBeforeNine(today: int)
    requires today == ToOrdinal(Date(2025, 9, 12))
    ensures GetLastFriday(today, 8) == Ok("2025-09-05")
  {
    SeptemberOrdinals();
    CutoffIsDate(today, 8, Date(2025, 9, 5));
    FormatFirstFriday();
  }

  /** Friday 2025-09-12 09:00: from 09:00 on, today itself. */
  lemma FridayFromNine(today: int)
    requires today == ToOrdinal(Date(2025, 9, 12))
    ensures GetLastFriday(today, 9) == Ok("2025-09-12")
  {
    SeptemberOrdinals();
    CutoffIsDate(today, 9, Date(2025, 9, 12));
    FormatSecondFriday();
  }
}
