/** `DateTimeExtensions`: day adjacency and the chart's date text. */
module DateTimeExtensions {
  import opened Wrappers
  import opened Calendar
  import opened Digits

  /** `a.IsTheDayBefore(b)`: `a.Date == b.AddDays(-1).Date`. */
  predicate IsTheDayBefore(a: DateTime, b: DateTime)
    requires IsValid(b.date)
  {
    a.date == AddDayBack(b).date
  }

  /** Adjacency is "the next calendar day", across month and year ends. */
  lemma IsTheDayBeforeMeansNextDay(a: DateTime, b: DateTime)
    requires IsValid(a.date) && IsValid(b.date)
    ensures IsTheDayBefore(a, b) <==> NextDay(a.date) == b.date
  {
    if NextDay(a.date) == b.date {
      PrevDayOfNextDay(a.date);
    }
  }

  /** Only the calendar dates matter, not the times of day. */
  lemma IsTheDayBeforeIgnoresTimeOfDay(a: DateTime, b: DateTime, a': DateTime, b': DateTime)
    requires IsValid(b.date) && a.date == a'.date && b.date == b'.date
    ensures IsTheDayBefore(a, b) <==> IsTheDayBefore(a', b')
  {
  }

  /** No date is the day before itself, and adjacency runs one way only. */
  lemma IsTheDayBeforeIrreflexiveAsymmetric(a: DateTime, b: DateTime)
    requires IsValid(a.date) && IsValid(b.date)
    ensures !IsTheDayBefore(a, a)
    ensures IsTheDayBefore(a, b) ==> !IsTheDayBefore(b, a)
  {
    BeforeIsStrictTotalOrder(a.date, b.date, a.date);
  }

  /** `dateTime.ToString("yyyy/MM/dd")`: year, month and day zero-padded to
      4, 2 and 2 digits. `DateTime` keeps its year within 1..9999. */
  function ToChartString(t: DateTime): (s: string)
    requires IsValid(t.date) && 1 <= t.date.year <= 9999
    ensures |s| == 10 && s[4] == '/' && s[7] == '/'
    ensures AllDigits(s[..4]) && AllDigits(s[5..7]) && AllDigits(s[8..])
  {
    var s := Fixed(t.date.year, 4) + "/" + Fixed(t.date.month, 2) + "/" + Fixed(t.date.day, 2);
    assert s[..4] == Fixed(t.date.year, 4) && s[5..7] == Fixed(t.date.month, 2) && s[8..] == Fixed(t.date.day, 2);
    s
  }

  /** Reads "yyyy/MM/dd" back into a date: the inverse of `ToChartString`. */
  function ParseChartString(s: string): (r: Option<Date>)
    ensures r.Some? ==> |s| == 10
  {
    if |s| == 10 && s[4] == '/' && s[7] == '/'
      && AllDigits(s[..4]) && AllDigits(s[5..7]) && AllDigits(s[8..])
    then Some(Date(ValueOf(s[..4]), ValueOf(s[5..7]), ValueOf(s[8..])))
    else None
  }

  /** The chart text of a date determines the date. */
  lemma ChartStringRoundTrip(t: DateTime)
    requires IsValid(t.date) && 1 <= t.date.year <= 9999
    ensures ParseChartString(ToChartString(t)) == Some(t.date)
  {
    var s := ToChartString(t);
    assert s[..4] == Fixed(t.date.year, 4) && s[5..7] == Fixed(t.date.month, 2) && s[8..] == Fixed(t.date.day, 2);
    ValueOfFixed(t.date.year, 4);
    ValueOfFixed(t.date.month, 2);
    ValueOfFixed(t.date.day, 2);
  }
}
