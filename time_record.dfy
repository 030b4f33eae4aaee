/** `TimeRecord`: a set of calendar dates kept as year containers holding
    month containers holding days; built from a date range and intersected
    with a habit's month records. */
module TimeRecords {
  import opened Wrappers
  import opened Errors
  import opened Calendar
  import opened MonthContainers
  import opened YearContainers
  import opened HabitMonthRecords

  /** A year container seen as a value. */
  datatype YearView = YearView(year: int, months: seq<MonthView>)

  /** The index of the first container for `year`. */
  function FindYear(years: seq<YearView>, year: int): (r: Option<nat>)
    ensures r.Some? ==> r.value < |years| && years[r.value].year == year
    ensures r.Some? ==> forall k :: 0 <= k < r.value ==> years[k].year != year
    ensures r.None? ==> forall k :: 0 <= k < |years| ==> years[k].year != year
  {
    if years == [] then None
    else if years[0].year == year then Some(0)
    else
      match FindYear(years[1..], year)
      case None => None
      case Some(i) => Some(i + 1)
  }

  /** One container per year, and within each year one per month. */
  predicate WellFormed(years: seq<YearView>) {
    (forall i, j :: 0 <= i < j < |years| ==> years[i].year != years[j].year)
    && forall k :: 0 <= k < |years| ==> UniqueMonths(years[k].months)
  }

  /** The record's years after `AddIfNotIncluded(date)`. */
  function AddToRecord(years: seq<YearView>, date: Date): seq<YearView> {
    match FindYear(years, date.year)
    case Some(i) => years[i := YearView(date.year, AddToYear(years[i].months, date.month, date.day))]
    case None => years + [YearView(date.year, [MonthView(date.month, [date.day])])]
  }

  /** The date is in the record. */
  predicate Holds(years: seq<YearView>, d: Date) {
    match FindYear(years, d.year)
    case Some(i) => HoldsInYear(years[i].months, d.month, d.day)
    case None => false
  }

  lemma {:induction false} FindYearSameKeys(a: seq<YearView>, b: seq<YearView>, year: int)
    requires |a| == |b| && forall k :: 0 <= k < |a| ==> a[k].year == b[k].year
    ensures FindYear(a, year) == FindYear(b, year)
  {
    if a != [] {
      FindYearSameKeys(a[1..], b[1..], year);
    }
  }

  lemma {:induction false} FindYearAppend(a: seq<YearView>, v: YearView, year: int)
    ensures FindYear(a + [v], year) ==
      match FindYear(a, year)
      case Some(i) => Some(i)
      case None => if v.year == year then Some(|a|) else None
  {
    if a != [] {
      assert (a + [v])[1..] == a[1..] + [v];
      FindYearAppend(a[1..], v, year);
    }
  }

  /** Adding keeps one container per year and per month. */
  lemma AddToRecordKeepsWellFormed(years: seq<YearView>, date: Date)
    requires WellFormed(years)
    ensures WellFormed(AddToRecord(years, date))
  {
    match FindYear(years, date.year)
    case Some(i) =>
      AddToYearKeepsMonthsUnique(years[i].months, date.month, date.day);
    case None =>
  }

  /** After adding, the record holds exactly the dates it held before and
      the new one. */
  lemma AddToRecordContents(years: seq<YearView>, date: Date, d: Date)
    ensures Holds(AddToRecord(years, date), d) <==> Holds(years, d) || d == date
  {
    var r := AddToRecord(years, date);
    match FindYear(years, date.year)
    case Some(i) =>
      FindYearSameKeys(years, r, d.year);
      AddToYearContents(years[i].months, date.month, date.day);
    case None =>
      FindYearAppend(years, YearView(date.year, [MonthView(date.month, [date.day])]), d.year);
      assert [MonthView(date.month, [date.day])][1..] == [];
  }

  /** `dateRange.ForEach(date => timeRecord.AddIfNotIncluded(date))`. */
  function AddAll(years: seq<YearView>, dates: seq<Date>): seq<YearView> {
    if dates == [] then years
    else AddToRecord(AddAll(years, dates[..|dates| - 1]), dates[|dates| - 1])
  }

  lemma {:induction false} AddAllContents(years: seq<YearView>, dates: seq<Date>, d: Date)
    ensures Holds(AddAll(years, dates), d) <==> Holds(years, d) || d in dates
  {
    if dates != [] {
      var n := |dates| - 1;
      AddAllContents(years, dates[..n], d);
      AddToRecordContents(AddAll(years, dates[..n]), dates[n], d);
      assert dates == dates[..n] + [dates[n]];
    }
  }

  lemma {:induction false} AddAllKeepsWellFormed(years: seq<YearView>, dates: seq<Date>)
    requires WellFormed(years)
    ensures WellFormed(AddAll(years, dates))
  {
    if dates != [] {
      AddAllKeepsWellFormed(years, dates[..|dates| - 1]);
      AddToRecordKeepsWellFormed(AddAll(years, dates[..|dates| - 1]), dates[|dates| - 1]);
    }
  }

  /** The dates `GetDatesBetween` steps through: from `date` one day at a
      time, keeping the time of day, while not after `end`. */
  function DatesFrom(date: DateTime, end: DateTime): (r: seq<Date>)
    requires IsValid(date.date)
    decreases end.date.year - date.date.year + 1, 12 - date.date.month, 31 - date.date.day
  {
    if !TimeAtOrBefore(date, end) then []
    else [date.date] + DatesFrom(DateTime(NextDay(date.date), date.timeOfDay), end)
  }

  /** The dates stepped through are exactly the valid dates from the start
      date on whose time (at the start's time of day) is not after `end`. */
  lemma {:induction false} DatesFromMembers(date: DateTime, end: DateTime, d: Date)
    requires IsValid(date.date)
    ensures d in DatesFrom(date, end) <==>
      IsValid(d) && AtOrBefore(date.date, d) && TimeAtOrBefore(DateTime(d, date.timeOfDay), end)
    decreases end.date.year - date.date.year + 1, 12 - date.date.month, 31 - date.date.day
  {
    if TimeAtOrBefore(date, end) {
      var next := DateTime(NextDay(date.date), date.timeOfDay);
      DatesFromMembers(next, end, d);
      if IsValid(d) && Before(date.date, d) {
        NextDayIsImmediate(date.date, d);
      }
    } else {
      if IsValid(d) && AtOrBefore(date.date, d) && TimeAtOrBefore(DateTime(d, date.timeOfDay), end) {
        assert false;
      }
    }
  }

  /** The dates stepped through are strictly increasing. */
  lemma {:induction false} DatesFromStrictlyIncreasing(date: DateTime, end: DateTime)
    requires IsValid(date.date)
    ensures IsStrictlyIncreasing(DatesFrom(date, end))
    decreases end.date.year - date.date.year + 1, 12 - date.date.month, 31 - date.date.day
  {
    if TimeAtOrBefore(date, end) {
      var next := DateTime(NextDay(date.date), date.timeOfDay);
      DatesFromStrictlyIncreasing(next, end);
      var rest := DatesFrom(next, end);
      forall k | 0 <= k < |rest| ensures Before(date.date, rest[k]) {
        DatesFromMembers(next, end, rest[k]);
      }
    }
  }

  /** `days.Intersect(other)`: the distinct days of `days` that are in
      `other`, in order of first occurrence. */
  function Intersect(days: seq<int>, other: seq<int>): (r: seq<int>)
    ensures forall x :: x in r <==> x in days && x in other
    ensures NoDuplicates(r)
  {
    if days == [] then []
    else
      var prefix := Intersect(days[..|days| - 1], other);
      var x := days[|days| - 1];
      assert days == days[..|days| - 1] + [x];
      if x in other && x !in prefix then prefix + [x] else prefix
  }

  /** `days.Select(day => new Date(year, month, day))`. */
  function DatesOf(year: int, month: int, days: seq<int>): (r: seq<Date>)
    ensures |r| == |days| && forall k :: 0 <= k < |days| ==> r[k] == Date(year, month, days[k])
  {
    seq(|days|, k requires 0 <= k < |days| => Date(year, month, days[k]))
  }

  /** What `GetIntersectingDates(entry)` returns. */
  function IntersectingDates(years: seq<YearView>, entry: HabitMonthRecordEntry): Result<seq<Date>, Error> {
    match (entry.pointer.year, entry.pointer.month)
    case (None, _) => Err(NullField("Year"))
    case (Some(_), None) => Err(NullField("Month"))
    case (Some(y), Some(m)) =>
      match FindYear(years, y)
      case None => Ok([])
      case Some(i) =>
        match FindMonth(years[i].months, m)
        case None => Ok([])
        case Some(j) => Ok(DatesOf(y, m, Intersect(entry.dates, years[i].months[j].days)))
  }

  /** The intersection holds each date of the entry's month that is both
      an entry day and in the record, once. */
  lemma IntersectingDatesMembers(years: seq<YearView>, entry: HabitMonthRecordEntry, d: Date)
    requires IntersectingDates(years, entry).Ok?
    ensures d in IntersectingDates(years, entry).value <==>
      Some(d.year) == entry.pointer.year && Some(d.month) == entry.pointer.month
      && d.day in entry.dates && Holds(years, d)
  {
    var y, m := entry.pointer.year.value, entry.pointer.month.value;
    var r := IntersectingDates(years, entry).value;
    match FindYear(years, y)
    case None =>
    case Some(i) =>
      match FindMonth(years[i].months, m)
      case None =>
      case Some(j) =>
        var days := Intersect(entry.dates, years[i].months[j].days);
        if d in r {
          var k :| 0 <= k < |r| && r[k] == d;
          assert days[k] in days;
        }
        if d.year == y && d.month == m && d.day in entry.dates && Holds(years, d) {
          var k :| 0 <= k < |days| && days[k] == d.day;
          assert r[k] == d;
        }
  }

  /** The list overload: each entry's intersection in input order. */
  function AllIntersectingDates(years: seq<YearView>, entries: seq<HabitMonthRecordEntry>): Result<seq<Date>, Error> {
    if entries == [] then Ok([])
    else
      match AllIntersectingDates(years, entries[..|entries| - 1])
      case Err(e) => Err(e)
      case Ok(prefix) =>
        match IntersectingDates(years, entries[|entries| - 1])
        case Err(e) => Err(e)
        case Ok(ds) => Ok(prefix + ds)
  }

  lemma {:induction false} AllIntersectingErrorPersists(years: seq<YearView>, entries: seq<HabitMonthRecordEntry>, i: nat)
    requires i <= |entries| && AllIntersectingDates(years, entries[..i]).Err?
    ensures AllIntersectingDates(years, entries) == AllIntersectingDates(years, entries[..i])
    decreases |entries| - i
  {
    if i < |entries| {
      var n := |entries| - 1;
      assert entries[..n][..i] == entries[..i];
      AllIntersectingErrorPersists(years, entries[..n], i);
    } else {
      assert entries[..i] == entries;
    }
  }

  class TimeRecord {
    var Years: seq<YearContainer>
    /** The years as values, one per container, in list order. */
    ghost var Contents: seq<YearView>
    ghost var Repr: set<object>

    ghost predicate Valid()
      reads this, Repr
    {
      this in Repr
      && (forall k :: 0 <= k < |Years| ==> Years[k] in Repr && Years[k].Repr <= Repr && this !in Years[k].Repr && Years[k].Valid())
      && (forall i, j :: 0 <= i < j < |Years| ==> Years[i].Repr !! Years[j].Repr)
      && (forall i, j :: 0 <= i < j < |Years| ==> Years[i].Year != Years[j].Year)
      && |Contents| == |Years|
      && (forall k :: 0 <= k < |Years| ==> Contents[k] == YearView(Years[k].Year, Years[k].Contents))
    }

    /** One container per year, and per month within a year. */
    lemma ValidIsWellFormed()
      requires Valid()
      ensures WellFormed(Contents)
    {
      forall k | 0 <= k < |Years|
        ensures UniqueMonths(Contents[k].months)
      {
      }
    }

    constructor()
      ensures Valid() && fresh(Repr) && Contents == []
    {
      Years := [];
      Contents := [];
      Repr := {this};
    }

    /** `TryGetYearContainer(year, out yearContainer)`: the first container
        for the year, or a fresh sentinel `YearContainer(new Date(0, 0, 0))`. */
    method TryGetYearContainer(year: int) returns (found: bool, yearContainer: YearContainer)
      requires Valid()
      ensures found <==> FindYear(Contents, year).Some?
      ensures found ==> yearContainer == Years[FindYear(Contents, year).value]
      ensures !found ==> fresh(yearContainer) && yearContainer.Year == 0
      ensures !found ==> yearContainer.Contents == [MonthView(0, [0])]
    {
      for i := 0 to |Years|
        invariant forall k :: 0 <= k < i ==> Years[k].Year != year
      {
        if Years[i].Year == year {
          return true, Years[i];
        }
      }
      yearContainer := new YearContainer(Date(0, 0, 0));
      return false, yearContainer;
    }

    /** `AddIfNotIncluded(date)`: adds the date to its year's container,
        or appends a new container for the year. */
    method AddIfNotIncluded(date: Date)
      requires Valid()
      modifies Repr
      ensures Valid() && fresh(Repr - old(Repr))
      ensures Contents == AddToRecord(old(Contents), date)
    {
      var found, yearContainer := TryGetYearContainer(date.year);
      if found {
        AddToExistingYear(date, FindYear(Contents, date.year).value, yearContainer);
      } else {
        AddNewYear(date);
      }
    }

    /** The branch of `AddIfNotIncluded` where the year has no container yet. */
    method AddNewYear(date: Date)
      requires Valid() && FindYear(Contents, date.year).None?
      modifies Repr
      ensures Valid() && fresh(Repr - old(Repr))
      ensures Contents == old(Contents) + [YearView(date.year, [MonthView(date.month, [date.day])])]
    {
      var y := new YearContainer(date);
      Years := Years + [y];
      Contents := Contents + [YearView(date.year, [MonthView(date.month, [date.day])])];
      Repr := Repr + y.Repr;
      assert Valid();
    }

    /** The branch of `AddIfNotIncluded` where the year already has a container. */
    method AddToExistingYear(date: Date, ghost i: nat, yearContainer: YearContainer)
      requires Valid()
      requires FindYear(Contents, date.year) == Some(i) && i < |Years| && yearContainer == Years[i]
      modifies Repr
      ensures Valid() && fresh(Repr - old(Repr))
      ensures Contents == AddToRecord(old(Contents), date)
    {
      assert Contents[i].months == yearContainer.Contents;
      yearContainer.AddIfNotIncluded(date.month, date.day);
      Contents := Contents[i := YearView(date.year, yearContainer.Contents)];
      Repr := Repr + yearContainer.Repr;
      forall k | 0 <= k < |Years| && k != i
        ensures Years[k].Repr == old(Years[k].Repr) && Years[k].Valid() && Years[k].Contents == old(Years[k].Contents)
        ensures Years[k].Repr !! yearContainer.Repr
      {
        assert old(Years[k].Repr !! yearContainer.Repr);
        assert Years[k] in old(Years[k].Repr);
      }
    }

    /** `GetIntersectingDates(habitMonthRecordEntry)`. */
    method GetIntersectingDatesOf(entry: HabitMonthRecordEntry) returns (r: Result<seq<Date>, Error>)
      requires Valid()
      ensures r == IntersectingDates(Contents, entry)
    {
      if entry.pointer.year.None? {
        return Err(NullField("Year"));
      }
      var year := entry.pointer.year.value;
      if entry.pointer.month.None? {
        return Err(NullField("Month"));
      }
      var month := entry.pointer.month.value;
      var intersectingDates: seq<Date> := [];
      var foundYear, yearContainer := TryGetYearContainer(year);
      if foundYear {
        var foundMonth, monthContainer := yearContainer.TryGetMonthContainer(month);
        if foundMonth {
          var days := Intersect(entry.dates, monthContainer.Days);
          intersectingDates := DatesOf(year, month, days);
        }
      }
      return Ok(intersectingDates);
    }

    /** `GetIntersectingDates(habitMonthRecordEntries)`. */
    method GetIntersectingDates(entries: seq<HabitMonthRecordEntry>) returns (r: Result<seq<Date>, Error>)
      requires Valid()
      ensures r == AllIntersectingDates(Contents, entries)
    {
      var intersectingDates: seq<Date> := [];
      for i := 0 to |entries|
        invariant AllIntersectingDates(Contents, entries[..i]) == Ok(intersectingDates)
      {
        assert entries[..i + 1][..i] == entries[..i];
        var dates := GetIntersectingDatesOf(entries[i]);
        if dates.Err? {
          AllIntersectingErrorPersists(Contents, entries, i + 1);
          return dates;
        }
        intersectingDates := intersectingDates + dates.value;
      }
      assert entries[..|entries|] == entries;
      return Ok(intersectingDates);
    }
  }

  /** `GetDatesBetween(start, end)`. */
  method GetDatesBetween(start: DateTime, end: DateTime) returns (dates: seq<Date>)
    requires IsValid(start.date)
    ensures dates == DatesFrom(start, end)
  {
    dates := [];
    var date := start;
    while TimeAtOrBefore(date, end)
      invariant IsValid(date.date)
      invariant dates + DatesFrom(date, end) == DatesFrom(start, end)
      decreases end.date.year - date.date.year + 1, 12 - date.date.month, 31 - date.date.day
    {
      dates := dates + [date.date];
      date := DateTime(NextDay(date.date), date.timeOfDay);
    }
  }

  /** `TimeRecord.CreateWithDatesBetween(start, end)`. */
  method CreateWithDatesBetween(start: DateTime, end: DateTime) returns (timeRecord: TimeRecord)
    requires IsValid(start.date)
    ensures fresh(timeRecord.Repr) && timeRecord.Valid()
    ensures timeRecord.Contents == AddAll([], DatesFrom(start, end))
  {
    timeRecord := new TimeRecord();
    var dateRange := GetDatesBetween(start, end);
    for i := 0 to |dateRange|
      invariant fresh(timeRecord.Repr) && timeRecord.Valid()
      invariant timeRecord.Contents == AddAll([], dateRange[..i])
    {
      assert dateRange[..i + 1][..i] == dateRange[..i];
      timeRecord.AddIfNotIncluded(dateRange[i]);
    }
    assert dateRange[..|dateRange|] == dateRange;
  }

  /** A record built from a range holds exactly the range's dates. */
  lemma CreatedRecordHoldsRange(start: DateTime, end: DateTime, d: Date)
    requires IsValid(start.date)
    ensures Holds(AddAll([], DatesFrom(start, end)), d) <==>
      IsValid(d) && AtOrBefore(start.date, d) && TimeAtOrBefore(DateTime(d, start.timeOfDay), end)
    ensures WellFormed(AddAll([], DatesFrom(start, end)))
  {
    AddAllContents([], DatesFrom(start, end), d);
    DatesFromMembers(start, end, d);
    AddAllKeepsWellFormed([], DatesFrom(start, end));
  }
}
