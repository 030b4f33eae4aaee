/** `DoneDateExtractor`: the done dates of a habit's month records that fall
    inside a window `[start, end]`, in chronological order. */
module DoneDateExtractor {
  import opened Wrappers
  import opened Errors
  import opened Calendar
  import opened HabitMonthRecords

  /** `start <= date && date <= end`, the date taken at midnight. */
  predicate InWindow(d: Date, start: DateTime, end: DateTime) {
    TimeAtOrBefore(start, Midnight(d)) && TimeAtOrBefore(Midnight(d), end)
  }

  /** The month guard as the code writes it: `start <= entryEnd || end >= entryStart`. */
  predicate MonthGuard(y: int, m: int, start: DateTime, end: DateTime)
    requires 1 <= m <= 12
  {
    TimeAtOrBefore(start, Midnight(Date(y, m, DaysInMonth(y, m))))
    || TimeAtOrBefore(Midnight(Date(y, m, 1)), end)
  }

  /** The inner loop over one record's days: each day must be a day of the
      month, and it is kept when its date lies in the window. */
  function DaysInWindow(y: int, m: int, days: seq<int>, start: DateTime, end: DateTime): (r: Result<seq<Date>, Error>)
    ensures r.Ok? ==> forall k :: 0 <= k < |r.value| ==>
      IsValid(r.value[k]) && InWindow(r.value[k], start, end) && r.value[k].year == y && r.value[k].month == m
    ensures r.Ok? <==> forall i :: 0 <= i < |days| ==> IsValid(Date(y, m, days[i]))
  {
    if days == [] then Ok([])
    else
      var day := days[|days| - 1];
      match DaysInWindow(y, m, days[..|days| - 1], start, end)
      case Err(e) => Err(e)
      case Ok(prefix) =>
        var d := Date(y, m, day);
        if !IsValid(d) then Err(DateOutOfRange(y, m, day))
        else if InWindow(d, start, end) then Ok(prefix + [d])
        else Ok(prefix)
  }

  /** One record's contribution: its year and month must be set and the
      month must exist; records the guard rejects contribute nothing. */
  function EntryDatesInWindow(e: HabitMonthRecordEntry, start: DateTime, end: DateTime): (r: Result<seq<Date>, Error>)
    ensures r.Ok? ==> forall k :: 0 <= k < |r.value| ==> IsValid(r.value[k]) && InWindow(r.value[k], start, end)
  {
    match GetYearMonth(e)
    case Err(err) => Err(err)
    case Ok((y, m)) =>
      if !(1 <= m <= 12) then Err(DateOutOfRange(y, m, 1))
      else if MonthGuard(y, m, start, end) then DaysInWindow(y, m, e.dates, start, end)
      else Ok([])
  }

  /** The records' contributions concatenated in list order; the first
      failing record's error otherwise. */
  function CollectInWindow(records: seq<HabitMonthRecordEntry>, start: DateTime, end: DateTime): (r: Result<seq<Date>, Error>)
    ensures r.Ok? ==> forall k :: 0 <= k < |r.value| ==> IsValid(r.value[k]) && InWindow(r.value[k], start, end)
  {
    if records == [] then Ok([])
    else
      match CollectInWindow(records[..|records| - 1], start, end)
      case Err(e) => Err(e)
      case Ok(prefix) =>
        match EntryDatesInWindow(records[|records| - 1], start, end)
        case Err(e) => Err(e)
        case Ok(ds) => Ok(prefix + ds)
  }

  /** What `GetDoneDatesInRange` returns. */
  function DoneDatesInRange(records: seq<HabitMonthRecordEntry>, start: DateTime, end: DateTime): Result<seq<Date>, Error> {
    match CollectInWindow(records, start, end)
    case Err(e) => Err(e)
    case Ok(ds) => Ok(SortDates(ds))
  }

  lemma {:induction false} DaysInWindowErrorPersists(y: int, m: int, days: seq<int>, start: DateTime, end: DateTime, i: nat)
    requires i <= |days| && DaysInWindow(y, m, days[..i], start, end).Err?
    ensures DaysInWindow(y, m, days, start, end) == DaysInWindow(y, m, days[..i], start, end)
    decreases |days| - i
  {
    if i < |days| {
      var n := |days| - 1;
      assert days[..n][..i] == days[..i];
      DaysInWindowErrorPersists(y, m, days[..n], start, end, i);
    } else {
      assert days[..i] == days;
    }
  }

  lemma {:induction false} CollectErrorPersists(records: seq<HabitMonthRecordEntry>, start: DateTime, end: DateTime, i: nat)
    requires i <= |records| && CollectInWindow(records[..i], start, end).Err?
    ensures CollectInWindow(records, start, end) == CollectInWindow(records[..i], start, end)
    decreases |records| - i
  {
    if i < |records| {
      var n := |records| - 1;
      assert records[..n][..i] == records[..i];
      CollectErrorPersists(records[..n], start, end, i);
    } else {
      assert records[..i] == records;
    }
  }

  /** `DoneDateExtractor.GetDoneDatesInRange`. */
  method GetDoneDatesInRange(records: seq<HabitMonthRecordEntry>, start: DateTime, end: DateTime)
    returns (r: Result<seq<Date>, Error>)
    ensures r == DoneDatesInRange(records, start, end)
  {
    var doneDates: seq<Date> := [];
    for i := 0 to |records|
      invariant CollectInWindow(records[..i], start, end) == Ok(doneDates)
    {
      assert records[..i + 1][..i] == records[..i];
      var yearMonth := GetYearMonth(records[i]);
      if yearMonth.Err? {
        CollectErrorPersists(records, start, end, i + 1);
        return Err(yearMonth.error);
      }
      var (year, month) := yearMonth.value;
      if !(1 <= month <= 12) {
        CollectErrorPersists(records, start, end, i + 1);
        return Err(DateOutOfRange(year, month, 1));
      }
      ghost var before := doneDates;
      var entryStart := Midnight(Date(year, month, 1));
      var entryEnd := Midnight(Date(year, month, DaysInMonth(year, month)));
      if TimeAtOrBefore(start, entryEnd) || TimeAtOrBefore(entryStart, end) {
        var days := records[i].dates;
        for j := 0 to |days|
          invariant DaysInWindow(year, month, days[..j], start, end).Ok?
          invariant doneDates == before + DaysInWindow(year, month, days[..j], start, end).value
        {
          assert days[..j + 1][..j] == days[..j];
          var dateTime := Date(year, month, days[j]);
          if !IsValid(dateTime) {
            DaysInWindowErrorPersists(year, month, days, start, end, j + 1);
            CollectErrorPersists(records, start, end, i + 1);
            return Err(DateOutOfRange(year, month, days[j]));
          }
          if InWindow(dateTime, start, end) {
            doneDates := doneDates + [dateTime];
          }
        }
        assert days[..|days|] == days;
        assert EntryDatesInWindow(records[i], start, end) == Ok(doneDates[|before|..]);
      } else {
        assert EntryDatesInWindow(records[i], start, end) == Ok([]);
      }
      assert doneDates == before + EntryDatesInWindow(records[i], start, end).value;
    }
    assert records[..|records|] == records;
    return Ok(SortDates(doneDates));
  }

  /** Every returned date is a real date inside the window, and the list
      is in chronological order. */
  lemma DoneDatesInRangeSound(records: seq<HabitMonthRecordEntry>, start: DateTime, end: DateTime)
    requires DoneDatesInRange(records, start, end).Ok?
    ensures var r := DoneDatesInRange(records, start, end).value;
      IsSorted(r) && forall d :: d in r ==> IsValid(d) && InWindow(d, start, end)
  {
    var ds := CollectInWindow(records, start, end).value;
    forall d | d in SortDates(ds) ensures IsValid(d) && InWindow(d, start, end) {
      assert d in multiset(ds);
    }
  }

  /** No records, no dates. */
  lemma NoRecordsNoDates(start: DateTime, end: DateTime)
    ensures DoneDatesInRange([], start, end) == Ok([])
  {
  }

  /** The dates of a list that lie in the window, in list order. */
  function WindowFilter(ds: seq<Date>, start: DateTime, end: DateTime): (r: seq<Date>)
    ensures forall d :: d in r <==> d in ds && InWindow(d, start, end)
  {
    if ds == [] then []
    else
      var last := ds[|ds| - 1];
      assert ds == ds[..|ds| - 1] + [last];
      WindowFilter(ds[..|ds| - 1], start, end) + (if InWindow(last, start, end) then [last] else [])
  }

  lemma {:induction false} WindowFilterAppend(a: seq<Date>, b: seq<Date>, start: DateTime, end: DateTime)
    ensures WindowFilter(a + b, start, end) == WindowFilter(a, start, end) + WindowFilter(b, start, end)
    decreases |b|
  {
    if b != [] {
      var n := |b| - 1;
      assert (a + b)[..|a + b| - 1] == a + b[..n];
      WindowFilterAppend(a, b[..n], start, end);
    } else {
      assert a + b == a;
    }
  }

  /** With every day valid, the inner loop keeps exactly the record's
      dates that lie in the window. */
  lemma {:induction false} DaysInWindowIsFilter(y: int, m: int, days: seq<int>, start: DateTime, end: DateTime)
    requires ExpandDays(y, m, days).Ok?
    ensures DaysInWindow(y, m, days, start, end) == Ok(WindowFilter(ExpandDays(y, m, days).value, start, end))
  {
    if days != [] {
      var n := |days| - 1;
      var all := ExpandDays(y, m, days).value;
      assert ExpandDays(y, m, days[..n]).Ok?;
      assert ExpandDays(y, m, days[..n]).value == all[..n];
      DaysInWindowIsFilter(y, m, days[..n], start, end);
      assert |all| == |days| && all[..|all| - 1] == all[..n];
      var d := all[n];
      assert d == Date(y, m, days[n]) && IsValid(d);
      var prefix := WindowFilter(all[..n], start, end);
      if InWindow(d, start, end) {
        assert WindowFilter(all, start, end) == prefix + [d];
        assert DaysInWindow(y, m, days, start, end) == Ok(prefix + [d]);
      } else {
        assert WindowFilter(all, start, end) == prefix;
        assert DaysInWindow(y, m, days, start, end) == Ok(prefix);
      }
    }
  }

  /** A month the guard rejects has no date in the window. */
  lemma {:induction false} RejectedMonthOutsideWindow(y: int, m: int, ds: seq<Date>, start: DateTime, end: DateTime)
    requires 1 <= m <= 12 && !MonthGuard(y, m, start, end)
    requires forall k :: 0 <= k < |ds| ==> IsValid(ds[k]) && ds[k].year == y && ds[k].month == m
    ensures WindowFilter(ds, start, end) == []
  {
    if ds != [] {
      var n := |ds| - 1;
      RejectedMonthOutsideWindow(y, m, ds[..n], start, end);
      var d := ds[n];
      assert IsValid(d) && d.year == y && d.month == m;
      assert d.day <= DaysInMonth(y, m);
      assert !TimeAtOrBefore(start, Midnight(d));
    }
  }

  /** Records with a set year and an existing month, all of whose days are
      days of that month: the extractor returns exactly the records' done
      dates that lie in the window, sorted. */
  lemma {:induction false} DoneDatesInRangeComplete(records: seq<HabitMonthRecordEntry>, start: DateTime, end: DateTime)
    requires forall k :: 0 <= k < |records| ==>
      records[k].pointer.year.Some? && records[k].pointer.month.Some? && 1 <= records[k].pointer.month.value <= 12
    requires AllDoneDates(records).Ok?
    ensures DoneDatesInRange(records, start, end) == Ok(SortDates(WindowFilter(AllDoneDates(records).value, start, end)))
  {
    CollectIsFilter(records, start, end);
  }

  /** Records kept apart, with every year and month set, give the dates in
      the window in strictly increasing order. */
  lemma DoneDatesInRangeStrictlyIncreasing(records: seq<HabitMonthRecordEntry>, start: DateTime, end: DateTime)
    requires forall k :: 0 <= k < |records| ==>
      records[k].pointer.year.Some? && records[k].pointer.month.Some? && 1 <= records[k].pointer.month.value <= 12
    requires AllDoneDates(records).Ok? && KeptApart(records)
    ensures DoneDatesInRange(records, start, end).Ok?
    ensures IsStrictlyIncreasing(DoneDatesInRange(records, start, end).value)
  {
    DoneDatesInRangeComplete(records, start, end);
    AllDoneDatesDistinct(records);
    WindowFilterKeepsDistinct(AllDoneDates(records).value, start, end);
    SortDatesOfDistinct(WindowFilter(AllDoneDates(records).value, start, end));
  }

  /** Filtering a list without repeated dates repeats none. */
  lemma {:induction false} WindowFilterKeepsDistinct(ds: seq<Date>, start: DateTime, end: DateTime)
    requires DistinctDates(ds)
    ensures DistinctDates(WindowFilter(ds, start, end))
  {
    if ds != [] {
      var prefix := ds[..|ds| - 1];
      var last := ds[|ds| - 1];
      assert DistinctDates(prefix);
      WindowFilterKeepsDistinct(prefix, start, end);
      assert last !in prefix;
      assert last !in WindowFilter(prefix, start, end);
    }
  }

  lemma {:induction false} CollectIsFilter(records: seq<HabitMonthRecordEntry>, start: DateTime, end: DateTime)
    requires forall k :: 0 <= k < |records| ==>
      records[k].pointer.year.Some? && records[k].pointer.month.Some? && 1 <= records[k].pointer.month.value <= 12
    requires AllDoneDates(records).Ok?
    ensures CollectInWindow(records, start, end) == Ok(WindowFilter(AllDoneDates(records).value, start, end))
  {
    if records != [] {
      var n := |records| - 1;
      var e := records[n];
      CollectIsFilter(records[..n], start, end);
      var y, m := e.pointer.year.value, e.pointer.month.value;
      var own := ExpandDays(y, m, e.dates).value;
      if MonthGuard(y, m, start, end) {
        DaysInWindowIsFilter(y, m, e.dates, start, end);
      } else {
        RejectedMonthOutsideWindow(y, m, own, start, end);
      }
      WindowFilterAppend(AllDoneDates(records[..n]).value, own, start, end);
    }
  }

  /** One more day through the inner loop. */
  lemma DaysInWindowAppend(y: int, m: int, days: seq<int>, day: int, start: DateTime, end: DateTime)
    requires IsValid(Date(y, m, day)) && DaysInWindow(y, m, days, start, end).Ok?
    ensures InWindow(Date(y, m, day), start, end) ==>
      DaysInWindow(y, m, days + [day], start, end) == Ok(DaysInWindow(y, m, days, start, end).value + [Date(y, m, day)])
    ensures !InWindow(Date(y, m, day), start, end) ==>
      DaysInWindow(y, m, days + [day], start, end) == DaysInWindow(y, m, days, start, end)
  {
    assert (days + [day])[..|days|] == days;
  }

  /** One more record through the outer loop. */
  lemma CollectAppend(records: seq<HabitMonthRecordEntry>, e: HabitMonthRecordEntry, start: DateTime, end: DateTime)
    requires CollectInWindow(records, start, end).Ok? && EntryDatesInWindow(e, start, end).Ok?
    ensures CollectInWindow(records + [e], start, end)
      == Ok(CollectInWindow(records, start, end).value + EntryDatesInWindow(e, start, end).value)
  {
    assert (records + [e])[..|records|] == records;
  }

  /** January 2024 with days 1, 15 and 31, window the whole of January:
      all three dates in order. */
  lemma JanuaryWindow(userId: string, habitId: string, version: Option<int>)
    ensures var e := HabitMonthRecordEntry(CreatePartitionKey(userId),
        HabitMonthRecordPointer(habitId, Some(2024), Some(1)), [1, 15, 31], version);
      DoneDatesInRange([e], Midnight(Date(2024, 1, 1)), Midnight(Date(2024, 1, 31)))
        == Ok([Date(2024, 1, 1), Date(2024, 1, 15), Date(2024, 1, 31)])
  {
    var start, end := Midnight(Date(2024, 1, 1)), Midnight(Date(2024, 1, 31));
    var ds := [Date(2024, 1, 1), Date(2024, 1, 15), Date(2024, 1, 31)];
    var e := HabitMonthRecordEntry(CreatePartitionKey(userId),
      HabitMonthRecordPointer(habitId, Some(2024), Some(1)), [1, 15, 31], version);
    JanuaryDays();
    SingleRecordDates(e);
    assert AllDoneDates([e]) == Ok(ds);
    DoneDatesInRangeComplete([e], start, end);
    JanuaryInWindow();
    JanuarySorted();
  }

  lemma JanuaryInWindow()
    ensures var ds := [Date(2024, 1, 1), Date(2024, 1, 15), Date(2024, 1, 31)];
      WindowFilter(ds, Midnight(Date(2024, 1, 1)), Midnight(Date(2024, 1, 31))) == ds
  {
    var start, end := Midnight(Date(2024, 1, 1)), Midnight(Date(2024, 1, 31));
    var ds := [Date(2024, 1, 1), Date(2024, 1, 15), Date(2024, 1, 31)];
    assert InWindow(ds[0], start, end) && InWindow(ds[1], start, end) && InWindow(ds[2], start, end);
    WindowFilterKeepsAll(ds, start, end);
  }

  lemma JanuaryDays()
    ensures ExpandDays(2024, 1, [1, 15, 31]) == Ok([Date(2024, 1, 1), Date(2024, 1, 15), Date(2024, 1, 31)])
  {
    var days := [1, 15, 31];
    var ds := [Date(2024, 1, 1), Date(2024, 1, 15), Date(2024, 1, 31)];
    var expanded := ExpandDays(2024, 1, days);
    assert forall i :: 0 <= i < |days| ==> IsValid(Date(2024, 1, days[i]));
    assert expanded.Ok? && |expanded.value| == 3;
    assert expanded.value[0] == ds[0] && expanded.value[1] == ds[1] && expanded.value[2] == ds[2];
    assert expanded.value == ds;
  }

  lemma JanuarySorted()
    ensures var ds := [Date(2024, 1, 1), Date(2024, 1, 15), Date(2024, 1, 31)];
      SortDates(ds) == ds
  {
    var ds := [Date(2024, 1, 1), Date(2024, 1, 15), Date(2024, 1, 31)];
    assert IsSorted(ds);
    SortDatesOfSorted(ds);
  }

  lemma SingleRecordDates(e: HabitMonthRecordEntry)
    ensures AllDoneDates([e]) == RecordDates(e)
  {
    assert [e][..0] == [];
    if RecordDates(e).Ok? {
      assert [] + RecordDates(e).value == RecordDates(e).value;
    }
  }

  /** A list all of whose dates lie in the window passes through unchanged. */
  lemma {:induction false} WindowFilterKeepsAll(ds: seq<Date>, start: DateTime, end: DateTime)
    requires forall k :: 0 <= k < |ds| ==> InWindow(ds[k], start, end)
    ensures WindowFilter(ds, start, end) == ds
  {
    if ds != [] {
      WindowFilterKeepsAll(ds[..|ds| - 1], start, end);
      assert ds[..|ds| - 1] + [ds[|ds| - 1]] == ds;
    }
  }

  /** Neighbouring months' dates are left out of a one-month window. */
  lemma NeighbouringMonthsExcluded()
    ensures var pk := CreatePartitionKey("u");
      var december := HabitMonthRecordEntry(pk, HabitMonthRecordPointer("h", Some(2023), Some(12)), [31], Some(0));
      var january := HabitMonthRecordEntry(pk, HabitMonthRecordPointer("h", Some(2024), Some(1)), [10], Some(0));
      var february := HabitMonthRecordEntry(pk, HabitMonthRecordPointer("h", Some(2024), Some(2)), [1], Some(0));
      DoneDatesInRange([february, december, january], Midnight(Date(2024, 1, 1)), Midnight(Date(2024, 1, 31)))
        == Ok([Date(2024, 1, 10)])
  {
    var pk := CreatePartitionKey("u");
    var december := HabitMonthRecordEntry(pk, HabitMonthRecordPointer("h", Some(2023), Some(12)), [31], Some(0));
    var january := HabitMonthRecordEntry(pk, HabitMonthRecordPointer("h", Some(2024), Some(1)), [10], Some(0));
    var february := HabitMonthRecordEntry(pk, HabitMonthRecordPointer("h", Some(2024), Some(2)), [1], Some(0));
    var start, end := Midnight(Date(2024, 1, 1)), Midnight(Date(2024, 1, 31));
    var none: seq<Date> := [];
    var tenth := [Date(2024, 1, 10)];
    assert EntryDatesInWindow(february, start, end) == Ok(none) by {
      DaysInWindowAppend(2024, 2, [], 1, start, end);
      assert [] + [1] == [1];
    }
    assert EntryDatesInWindow(december, start, end) == Ok(none) by {
      DaysInWindowAppend(2023, 12, [], 31, start, end);
      assert [] + [31] == [31];
    }
    assert EntryDatesInWindow(january, start, end) == Ok(tenth) by {
      assert MonthGuard(2024, 1, start, end);
      assert InWindow(Date(2024, 1, 10), start, end);
      DaysInWindowAppend(2024, 1, [], 10, start, end);
      assert [] + [10] == [10];
      assert none + tenth == tenth;
    }
    assert CollectInWindow([february], start, end) == Ok(none) by {
      var noRecords: seq<HabitMonthRecordEntry> := [];
      assert CollectInWindow(noRecords, start, end) == Ok(none);
      CollectAppend(noRecords, february, start, end);
      assert noRecords + [february] == [february];
      assert none + none == none;
    }
    assert CollectInWindow([february, december], start, end) == Ok(none) by {
      CollectAppend([february], december, start, end);
      assert [february] + [december] == [february, december];
      assert none + none == none;
    }
    assert CollectInWindow([february, december, january], start, end) == Ok(tenth) by {
      CollectAppend([february, december], january, start, end);
      assert [february, december] + [january] == [february, december, january];
      assert none + tenth == tenth;
    }
    SortDatesOfSorted(tenth);
  }

  /** The guard is a disjunction, so a month far outside the window is still
      expanded and an impossible day in it raises. */
  lemma InvalidDayOutsideWindowRaises()
    ensures var e := HabitMonthRecordEntry(CreatePartitionKey("u"),
        HabitMonthRecordPointer("h", Some(2023), Some(2)), [30], Some(0));
      DoneDatesInRange([e], Midnight(Date(2024, 1, 1)), Midnight(Date(2024, 1, 31)))
        == Err(DateOutOfRange(2023, 2, 30))
  {
  }
}
