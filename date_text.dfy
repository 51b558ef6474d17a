/** The date texts the script writes and reads: strftime/strptime with
    '%Y-%m-%d', datetime.fromisoformat on GitHub's updatedAt stamps, and the
    str.replace('Z', '+00:00') applied before it (RFC 3339, section 2: "Z" is
    the UTC designator; section 5.6 gives the date-time grammar). */
module DateText {
  import opened Outcomes
  import opened Decimal
  import opened Calendar

  /** strftime('%Y-%m-%d') as CPython 3.12 on Linux writes it: '%Y' is passed
      to glibc, which writes the year in plain decimal, so years below 1000
      have fewer than four digits. Later CPython releases pad '%Y' to four
      digits themselves (CPython issue gh-120713). */
  function FormatDate(d: Date): (s: string)
    requires ValidDate(d)
    ensures |s| == |Digits(d.year)| + 6 && s[..|s| - 6] == Digits(d.year)
    ensures s[|s| - 6] == '-' && s[|s| - 3] == '-'
    ensures TwoDigits(s, |s| - 5) && Field(s, |s| - 5) == d.month
    ensures TwoDigits(s, |s| - 2) && Field(s, |s| - 2) == d.day
  {
    var y, m, dd := Digits(d.year), Pad2(d.month), Pad2(d.day);
    Pad2Field(d.month);
    Pad2Field(d.day);
    var s := y + "-" + m + "-" + dd;
    assert s[|y| + 1] == m[0] && s[|y| + 2] == m[1] && s[|y| + 4] == dd[0] && s[|y| + 5] == dd[1];
    s
  }

  /** Two decimal digits at positions i and i + 1 of s. */
  predicate TwoDigits(s: string, i: nat) {
    i + 2 <= |s| && IsDigit(s[i]) && IsDigit(s[i + 1])
  }

  /** The number those two digits spell. */
  function Field(s: string, i: nat): (n: nat)
    requires TwoDigits(s, i)
    ensures n < 100
  {
    DigitValue(s[i]) * 10 + DigitValue(s[i + 1])
  }

  /** A ten-character text of the shape "DDDD-DD-DD". */
  predicate DateShaped(s: string) {
    |s| == 10 && TwoDigits(s, 0) && TwoDigits(s, 2) && s[4] == '-' && TwoDigits(s, 5) && s[7] == '-' && TwoDigits(s, 8)
  }

  /** Year, month and day read from such a text. */
  function DateFields(s: string): Date
    requires DateShaped(s)
  {
    Date(Field(s, 0) * 100 + Field(s, 2), Field(s, 5), Field(s, 8))
  }

  /** strptime(s, '%Y-%m-%d').date(): four-digit year, two-digit month and day,
      and a date that exists; anything else raises ValueError. */
  function ParseDate(s: string): (r: Result<Date>)
    ensures r.Ok? ==> ValidDate(r.value)
  {
    if DateShaped(s) && ValidDate(DateFields(s)) then Ok(DateFields(s)) else Err(ValueError(s))
  }

  /** A '%m' or '%d' field read back. */
  lemma Pad2Field(n: nat)
    requires n < 100
    ensures TwoDigits(Pad2(n), 0) && Field(Pad2(n), 0) == n
  {
  }

  /** A four-digit year read back as two two-digit fields. */
  lemma YearFields(y: nat)
    requires 1000 <= y <= 9999
    ensures var t := Digits(y);
            |t| == 4 && TwoDigits(t, 0) && TwoDigits(t, 2) && Field(t, 0) * 100 + Field(t, 2) == y
  {
    DigitsOfFourDigitNumber(y);
    var t, hi, lo := Digits(y), Pad2(y / 100), Pad2(y % 100);
    Pad2Field(y / 100);
    Pad2Field(y % 100);
    assert t[0] == hi[0] && t[1] == hi[1] && t[2] == lo[0] && t[3] == lo[1];
    assert Field(t, 0) == Field(hi, 0) && Field(t, 2) == Field(lo, 0);
  }

  lemma ShapeOfFormatted(d: Date)
    requires ValidDate(d) && d.year >= 1000
    ensures DateShaped(FormatDate(d)) && DateFields(FormatDate(d)) == d
  {
    var t, p, q := Digits(d.year), Pad2(d.month), Pad2(d.day);
    YearFields(d.year);
    Pad2Field(d.month);
    Pad2Field(d.day);
    var s := FormatDate(d);
    assert s == t + "-" + p + "-" + q;
    assert s[0] == t[0] && s[1] == t[1] && s[2] == t[2] && s[3] == t[3] && s[4] == '-';
    assert s[5] == p[0] && s[6] == p[1] && s[7] == '-' && s[8] == q[0] && s[9] == q[1];
    assert Field(s, 0) == Field(t, 0) && Field(s, 2) == Field(t, 2);
    assert Field(s, 5) == Field(p, 0) && Field(s, 8) == Field(q, 0);
  }

  lemma ParseFormatRoundTrip(d: Date)
    requires ValidDate(d) && d.year >= 1000
    ensures ParseDate(FormatDate(d)) == Ok(d)
  {
    ShapeOfFormatted(d);
  }

  /** Below year 1000 the formatted text is too short for '%Y' to read back. */
  lemma ParseFormatShortYear(d: Date)
    requires ValidDate(d) && d.year < 1000
    ensures ParseDate(FormatDate(d)).Err?
  {
    FourDigitYears(d.year);
  }

  /** Different dates never share a text: the format is injective. */
  lemma FormatDateInjective(a: Date, b: Date)
    requires ValidDate(a) && ValidDate(b)
    requires FormatDate(a) == FormatDate(b)
    ensures a == b
  {
    var s := FormatDate(a);
    assert Digits(a.year) == s[..|s| - 6] == Digits(b.year);
    DigitsInjective(a.year, b.year);
  }

  /** What one character becomes under the rewrite. */
  function Rewrite(c: char): (r: string)
    ensures 'Z' !in r && (c != 'Z' ==> r == [c])
  {
    if c == 'Z' then "+00:00" else [c]
  }

  /** s.replace('Z', '+00:00'): every 'Z' becomes the explicit zero offset. */
  function ReplaceZ(s: string): (r: string)
    ensures 'Z' !in r
    ensures 'Z' !in s ==> r == s
  {
    if s == [] then [] else Rewrite(s[0]) + ReplaceZ(s[1..])
  }

  lemma {:induction false} ReplaceZAppend(a: string, b: string)
    ensures ReplaceZ(a + b) == ReplaceZ(a) + ReplaceZ(b)
  {
    if a != [] {
      var head := Rewrite(a[0]);
      assert (a + b)[0] == a[0];
      assert (a + b)[1..] == a[1..] + b;
      ReplaceZAppend(a[1..], b);
      assert head + ReplaceZ(a[1..]) + ReplaceZ(b) == head + (ReplaceZ(a[1..]) + ReplaceZ(b));
    } else {
      assert a + b == b;
    }
  }

  /** A prefix without 'Z' comes through the rewrite unchanged. */
  lemma ReplaceZKeepsPrefix(s: string, n: nat)
    requires n <= |s| && 'Z' !in s[..n]
    ensures |ReplaceZ(s)| >= n && ReplaceZ(s)[..n] == s[..n]
  {
    var head, tail := s[..n], s[n..];
    assert head + tail == s;
    ReplaceZAppend(head, tail);
  }

  /** A parsed fromisoformat value: the date, the time of day and, when the
      text carries one, the UTC offset in minutes. */
  datatype DateTime = DateTime(date: Date, hour: int, minute: int, second: int, offset: Option<int>)

  predicate ValidDateTime(t: DateTime) {
    ValidDate(t.date) && 0 <= t.hour < 24 && 0 <= t.minute < 60 && 0 <= t.second < 60
    && (t.offset.Some? ==> -24 * 60 < t.offset.value < 24 * 60)
  }

  /** The offset suffix: nothing (a naive value) or "+HH:MM" / "-HH:MM". */
  function ParseOffset(s: string): (r: Option<Option<int>>)
    ensures r == Some(None) <==> s == []
    ensures r.Some? && r.value.Some? ==> -24 * 60 < r.value.value < 24 * 60
    ensures r.Some? && r.value.Some? ==>
              |s| == 6 && s[3] == ':' && TwoDigits(s, 1) && TwoDigits(s, 4)
              && Field(s, 1) < 24 && Field(s, 4) < 60
              && (s[0] == '+' || s[0] == '-')
              && (if s[0] == '+' then r.value.value else -r.value.value) == Field(s, 1) * 60 + Field(s, 4)
  {
    if s == [] then Some(None)
    else if |s| == 6 && (s[0] == '+' || s[0] == '-') && TwoDigits(s, 1) && s[3] == ':' && TwoDigits(s, 4)
         && Field(s, 1) < 24 && Field(s, 4) < 60 then
      var minutes := Field(s, 1) * 60 + Field(s, 4);
      Some(Some(if s[0] == '+' then minutes else -minutes))
    else None
  }

  /** datetime.fromisoformat(s) on the forms GitHub emits: "YYYY-MM-DD", or that
      date, one separator character, "HH:MM:SS" and an optional offset. */
  function ParseDateTime(s: string): (r: Result<DateTime>)
    ensures r.Ok? ==> ValidDateTime(r.value)
  {
    if |s| < 10 || ParseDate(s[..10]).Err? then Err(ValueError(s))
    else
      var d := ParseDate(s[..10]).value;
      if |s| == 10 then Ok(DateTime(d, 0, 0, 0, None))
      else
        if |s| >= 19 && TwoDigits(s, 11) && s[13] == ':' && TwoDigits(s, 14) && s[16] == ':' && TwoDigits(s, 17)
           && Field(s, 11) < 24 && Field(s, 14) < 60 && Field(s, 17) < 60 && ParseOffset(s[19..]).Some? then
          Ok(DateTime(d, Field(s, 11), Field(s, 14), Field(s, 17), ParseOffset(s[19..]).value))
        else Err(ValueError(s))
  }

  /** "HH:MM:SS", each field two digits. */
  function FormatTime(hour: nat, minute: nat, second: nat): (s: string)
    requires hour < 24 && minute < 60 && second < 60
    ensures |s| == 8 && s[2] == ':' && s[5] == ':'
    ensures s[0..2] == Pad2(hour) && s[3..5] == Pad2(minute) && s[6..8] == Pad2(second)
  {
    Pad2(hour) + ":" + Pad2(minute) + ":" + Pad2(second)
  }

  /** GitHub's updatedAt text for a UTC instant: "YYYY-MM-DDTHH:MM:SSZ". */
  function FormatUtc(d: Date, hour: nat, minute: nat, second: nat): string
    requires ValidDate(d) && hour < 24 && minute < 60 && second < 60
  {
    FormatDate(d) + "T" + FormatTime(hour, minute, second) + "Z"
  }

  lemma NoZInDigits(s: string)
    requires AllDigits(s)
    ensures 'Z' !in s
  {
  }

  lemma NoZInFormatted(d: Date, hour: nat, minute: nat, second: nat)
    requires ValidDate(d) && hour < 24 && minute < 60 && second < 60
    ensures 'Z' !in FormatDate(d) + "T" + FormatTime(hour, minute, second)
  {
    NoZInDigits(Digits(d.year));
    NoZInDigits(Pad2(d.month));
    NoZInDigits(Pad2(d.day));
    NoZInDigits(Pad2(hour));
    NoZInDigits(Pad2(minute));
    NoZInDigits(Pad2(second));
  }

  lemma ReplaceZOfUtc(d: Date, hour: nat, minute: nat, second: nat)
    requires ValidDate(d) && hour < 24 && minute < 60 && second < 60
    ensures ReplaceZ(FormatUtc(d, hour, minute, second))
            == FormatDate(d) + "T" + FormatTime(hour, minute, second) + "+00:00"
  {
    var head := FormatDate(d) + "T" + FormatTime(hour, minute, second);
    NoZInFormatted(d, hour, minute, second);
    ReplaceZAppend(head, "Z");
  }

  /** The "+00:00" suffix reads as offset zero. */
  lemma ZeroOffset()
    ensures ParseOffset("+00:00") == Some(Some(0))
  {
    assert TwoDigits("+00:00", 1) && TwoDigits("+00:00", 4);
    assert Field("+00:00", 1) == 0 && Field("+00:00", 4) == 0;
  }

  /** Where the time fields and the offset sit in "<date>T<time>+00:00". */
  lemma TimeFields(date: string, hour: nat, minute: nat, second: nat)
    requires |date| == 10 && hour < 24 && minute < 60 && second < 60
    ensures var s := date + "T" + FormatTime(hour, minute, second) + "+00:00";
            |s| == 25 && s[..10] == date && s[19..] == "+00:00"
            && TwoDigits(s, 11) && s[13] == ':' && TwoDigits(s, 14) && s[16] == ':' && TwoDigits(s, 17)
            && Field(s, 11) == hour && Field(s, 14) == minute && Field(s, 17) == second
  {
    var time := FormatTime(hour, minute, second);
    var s := date + "T" + time + "+00:00";
    Pad2Field(hour);
    Pad2Field(minute);
    Pad2Field(second);
    assert s[..10] == date && s[19..] == "+00:00";
    assert forall k :: 0 <= k < 8 ==> s[11 + k] == time[k];
    assert time[0..2] == Pad2(hour) && time[3..5] == Pad2(minute) && time[6..8] == Pad2(second);
    assert Field(s, 11) == Field(Pad2(hour), 0);
    assert Field(s, 14) == Field(Pad2(minute), 0);
    assert Field(s, 17) == Field(Pad2(second), 0);
  }

  lemma ParseWithOffsetZero(d: Date, hour: nat, minute: nat, second: nat)
    requires ValidDate(d) && d.year >= 1000 && hour < 24 && minute < 60 && second < 60
    ensures ParseDateTime(FormatDate(d) + "T" + FormatTime(hour, minute, second) + "+00:00")
            == Ok(DateTime(d, hour, minute, second, Some(0)))
  {
    ParseFormatRoundTrip(d);
    TimeFields(FormatDate(d), hour, minute, second);
    ZeroOffset();
  }

  /** Reading a UTC stamp after the 'Z' rewrite recovers every field, with
      offset zero: the date is the one written, not shifted to local time. */
  lemma ParseUtcRoundTrip(d: Date, hour: nat, minute: nat, second: nat)
    requires ValidDate(d) && d.year >= 1000 && hour < 24 && minute < 60 && second < 60
    ensures ParseDateTime(ReplaceZ(FormatUtc(d, hour, minute, second)))
            == Ok(DateTime(d, hour, minute, second, Some(0)))
  {
    ReplaceZOfUtc(d, hour, minute, second);
    ParseWithOffsetZero(d, hour, minute, second);
  }

  /** The texts of the dates in the examples of the cutoff and of is_after_date. */
  lemma FormatFirstFriday()
    ensures FormatDate(Date(2025, 9, 5)) == "2025-09-05"
  {
    DigitsOfFourDigitNumber(2025);
  }

  lemma FormatSecondFriday()
    ensures FormatDate(Date(2025, 9, 12)) == "2025-09-12"
  {
    DigitsOfFourDigitNumber(2025);
  }

  lemma FormatThursday()
    ensures FormatDate(Date(2025, 9, 4)) == "2025-09-04"
  {
    DigitsOfFourDigitNumber(2025);
  }
}
