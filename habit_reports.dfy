/** The report helpers inside `HabitRepository` (`GetChartData` and
    `GetDoneDatesInRange`), which `GetHabitRecordsForPeriod` calls. They are
    earlier copies of `ChartDataCreator.Create` and
    `DoneDateExtractor.GetDoneDatesInRange` and differ from them in two
    places, each shown on a concrete input below. */
module HabitReports {
  import opened Wrappers
  import opened Errors
  import opened Calendar
  import opened HabitMonthRecords
  import ChartDataCreator
  import DoneDateExtractor

  // ---------------------------------------------------------------------
  // GetChartData
  // ---------------------------------------------------------------------

  /** `GetChartData(habitRecords)` as written: no guard for an empty record
      list, so `dates[0]` is read whenever there is no done date at all. */
  function LegacyChartData(records: seq<HabitMonthRecordEntry>, today: Date): Result<ChartDataCreator.ChartData, Error> {
    match AllDoneDates(records)
    case Err(e) => Err(e)
    case Ok(ds) =>
      if ds == [] then Err(IndexOutOfRange)
      else
        ChartDataCreator.SortKeepsValidity(ds);
        Ok(ChartDataCreator.ChartOf(SortDates(ds), today))
  }

  /** On a non-empty record list the helper builds the same chart as
      `ChartDataCreator.Create`. */
  lemma LegacyChartAgreesOnRecords(records: seq<HabitMonthRecordEntry>, today: Date)
    requires records != []
    ensures LegacyChartData(records, today) == ChartDataCreator.CreateSpec(records, today)
  {
  }

  /** A habit without any month record: the helper throws, while
      `ChartDataCreator.Create` returns the empty chart. */
  lemma LegacyChartFailsWithoutRecords(today: Date)
    ensures LegacyChartData([], today) == Err(IndexOutOfRange)
    ensures ChartDataCreator.CreateSpec([], today) == Ok(ChartDataCreator.EmptyChart)
  {
  }

  // ---------------------------------------------------------------------
  // GetDoneDatesInRange
  // ---------------------------------------------------------------------

  /** The helper's day filter: `start.Day <= day && day <= end.Day`, on the
      day of the month alone, in list order. The output `Date` is a plain
      record, so no day is checked against the calendar. */
  function DaysBetweenDaysOfMonth(y: int, m: int, days: seq<int>, startDay: int, endDay: int): (r: seq<Date>)
    ensures forall k :: 0 <= k < |r| ==> r[k].year == y && r[k].month == m && startDay <= r[k].day <= endDay
    ensures forall d :: d in days && startDay <= d <= endDay ==> Date(y, m, d) in r
  {
    if days == [] then []
    else
      var rest := DaysBetweenDaysOfMonth(y, m, days[1..], startDay, endDay);
      if startDay <= days[0] <= endDay then [Date(y, m, days[0])] + rest else rest
  }

  /** One record's contribution, behind the same month guard as the extractor. */
  function LegacyEntryDates(e: HabitMonthRecordEntry, start: DateTime, end: DateTime): Result<seq<Date>, Error> {
    match GetYearMonth(e)
    case Err(err) => Err(err)
    case Ok((y, m)) =>
      if !(1 <= m <= 12) then Err(DateOutOfRange(y, m, 1))
      else if DoneDateExtractor.MonthGuard(y, m, start, end) then
        Ok(DaysBetweenDaysOfMonth(y, m, e.dates, start.date.day, end.date.day))
      else Ok([])
  }

  function LegacyCollect(records: seq<HabitMonthRecordEntry>, start: DateTime, end: DateTime): Result<seq<Date>, Error> {
    if records == [] then Ok([])
    else
      match LegacyCollect(records[..|records| - 1], start, end)
      case Err(e) => Err(e)
      case Ok(prefix) =>
        match LegacyEntryDates(records[|records| - 1], start, end)
        case Err(e) => Err(e)
        case Ok(ds) => Ok(prefix + ds)
  }

  /** `GetDoneDatesInRange(entries, start, end)` as written. */
  function LegacyDoneDatesInRange(records: seq<HabitMonthRecordEntry>, start: DateTime, end: DateTime): Result<seq<Date>, Error> {
    match LegacyCollect(records, start, end)
    case Err(e) => Err(e)
    case Ok(ds) => Ok(SortDates(ds))
  }

  /** Every date the helper returns has a day of the month between the
      window's first and last day of the month, whatever its month. */
  lemma {:induction false} LegacyDaysBetweenDaysOfMonth(records: seq<HabitMonthRecordEntry>, start: DateTime, end: DateTime)
    requires LegacyCollect(records, start, end).Ok?
    ensures forall k :: 0 <= k < |LegacyCollect(records, start, end).value| ==>
      start.date.day <= LegacyCollect(records, start, end).value[k].day <= end.date.day
  {
    if records != [] {
      LegacyDaysBetweenDaysOfMonth(records[..|records| - 1], start, end);
    }
  }

  /** A week across the end of January, 29 January to 4 February 2024, with
      days done on 30 January and 2 February: the helper keeps days between
      29 and 4 of each month, that is none; the extractor returns both. */
  lemma LegacyLosesDaysAcrossMonthEnd(userId: string, habitId: string, version: Option<int>)
    ensures var pk := CreatePartitionKey(userId);
      var january := HabitMonthRecordEntry(pk, HabitMonthRecordPointer(habitId, Some(2024), Some(1)), [30], version);
      var february := HabitMonthRecordEntry(pk, HabitMonthRecordPointer(habitId, Some(2024), Some(2)), [2], version);
      var start, end := Midnight(Date(2024, 1, 29)), Midnight(Date(2024, 2, 4));
      LegacyDoneDatesInRange([january, february], start, end) == Ok([]) &&
      DoneDateExtractor.DoneDatesInRange([january, february], start, end) == Ok([Date(2024, 1, 30), Date(2024, 2, 2)])
  {
    var pk := CreatePartitionKey(userId);
    var january := HabitMonthRecordEntry(pk, HabitMonthRecordPointer(habitId, Some(2024), Some(1)), [30], version);
    var february := HabitMonthRecordEntry(pk, HabitMonthRecordPointer(habitId, Some(2024), Some(2)), [2], version);
    var start, end := Midnight(Date(2024, 1, 29)), Midnight(Date(2024, 2, 4));
    LegacyWindowIsEmpty(january, february, start, end);
    ExtractorWindowKeepsBoth(january, february, start, end);
  }

  lemma LegacyWindowIsEmpty(january: HabitMonthRecordEntry, february: HabitMonthRecordEntry, start: DateTime, end: DateTime)
    requires january.pointer.year == Some(2024) && january.pointer.month == Some(1) && january.dates == [30]
    requires february.pointer.year == Some(2024) && february.pointer.month == Some(2) && february.dates == [2]
    requires start == Midnight(Date(2024, 1, 29)) && end == Midnight(Date(2024, 2, 4))
    ensures LegacyDoneDatesInRange([january, february], start, end) == Ok([])
  {
    assert DaysBetweenDaysOfMonth(2024, 1, [30], 29, 4) == [];
    assert DaysBetweenDaysOfMonth(2024, 2, [2], 29, 4) == [];
    assert LegacyEntryDates(january, start, end) == Ok([]);
    assert LegacyEntryDates(february, start, end) == Ok([]);
    var none: seq<Date> := [];
    assert none + none == none;
    var records := [january, february];
    var first := [january];
    assert first[..0] == [] && first[0] == january;
    assert LegacyCollect(first[..0], start, end) == Ok(none);
    assert LegacyCollect(first, start, end) == Ok(none);
    assert records[..|records| - 1] == first && records[|records| - 1] == february;
    assert LegacyCollect(records, start, end) == Ok(none);
    SortDatesOfSorted([]);
  }

  /** The two records of the window example each keep their one day. */
  lemma ExtractorWindowEntries(january: HabitMonthRecordEntry, february: HabitMonthRecordEntry, start: DateTime, end: DateTime)
    requires january.pointer.year == Some(2024) && january.pointer.month == Some(1) && january.dates == [30]
    requires february.pointer.year == Some(2024) && february.pointer.month == Some(2) && february.dates == [2]
    requires start == Midnight(Date(2024, 1, 29)) && end == Midnight(Date(2024, 2, 4))
    ensures DoneDateExtractor.EntryDatesInWindow(january, start, end) == Ok([Date(2024, 1, 30)])
    ensures DoneDateExtractor.EntryDatesInWindow(february, start, end) == Ok([Date(2024, 2, 2)])
  {
    var jan30, feb2 := Date(2024, 1, 30), Date(2024, 2, 2);
    var none: seq<Date> := [];
    assert DoneDateExtractor.EntryDatesInWindow(january, start, end) == Ok([jan30]) by {
      assert DoneDateExtractor.MonthGuard(2024, 1, start, end);
      assert DoneDateExtractor.InWindow(jan30, start, end);
      DoneDateExtractor.DaysInWindowAppend(2024, 1, [], 30, start, end);
      assert [] + [30] == [30];
      assert none + [jan30] == [jan30];
    }
    assert DoneDateExtractor.EntryDatesInWindow(february, start, end) == Ok([feb2]) by {
      assert DoneDateExtractor.MonthGuard(2024, 2, start, end);
      assert DoneDateExtractor.InWindow(feb2, start, end);
      DoneDateExtractor.DaysInWindowAppend(2024, 2, [], 2, start, end);
      assert [] + [2] == [2];
      assert none + [feb2] == [feb2];
    }
  }

  lemma ExtractorWindowKeepsBoth(january: HabitMonthRecordEntry, february: HabitMonthRecordEntry, start: DateTime, end: DateTime)
    requires january.pointer.year == Some(2024) && january.pointer.month == Some(1) && january.dates == [30]
    requires february.pointer.year == Some(2024) && february.pointer.month == Some(2) && february.dates == [2]
    requires start == Midnight(Date(2024, 1, 29)) && end == Midnight(Date(2024, 2, 4))
    ensures DoneDateExtractor.DoneDatesInRange([january, february], start, end) == Ok([Date(2024, 1, 30), Date(2024, 2, 2)])
  {
    var jan30, feb2 := Date(2024, 1, 30), Date(2024, 2, 2);
    var none: seq<Date> := [];
    ExtractorWindowEntries(january, february, start, end);
    assert DoneDateExtractor.CollectInWindow([january], start, end) == Ok([jan30]) by {
      var noRecords: seq<HabitMonthRecordEntry> := [];
      assert DoneDateExtractor.CollectInWindow(noRecords, start, end) == Ok(none);
      DoneDateExtractor.CollectAppend(noRecords, january, start, end);
      assert noRecords + [january] == [january];
      assert none + [jan30] == [jan30];
    }
    assert DoneDateExtractor.CollectInWindow([january, february], start, end) == Ok([jan30, feb2]) by {
      DoneDateExtractor.CollectAppend([january], february, start, end);
      assert [january] + [february] == [january, february];
      assert [jan30] + [feb2] == [jan30, feb2];
    }
    assert IsSorted([jan30, feb2]);
    SortDatesOfSorted([jan30, feb2]);
  }
}
