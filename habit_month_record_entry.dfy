/** `HabitMonthRecordEntry`: one month bucket of one habit, holding the
    days of the month on which the habit was done and a version number. */
module HabitMonthRecords {
  import opened Wrappers
  import opened Errors
  import opened Calendar

  /** The hash key: the owner and the kind of item. */
  datatype HabitPartitionKey = HabitPartitionKey(userId: string, itemType: string)

  /** The range key. Year and month are null only in prefix queries. */
  datatype HabitMonthRecordPointer = HabitMonthRecordPointer(habitId: string, year: Option<int>, month: Option<int>)

  datatype HabitMonthRecordEntry = HabitMonthRecordEntry(
    partitionKey: HabitPartitionKey,
    pointer: HabitMonthRecordPointer,
    dates: seq<int>,
    versionNumber: Option<int>)

  const MonthRecordItemType: string := "HabitMonthRecordEntry"

  /** `HabitMonthRecordEntry.CreatePartitionKey(userId)`. */
  function CreatePartitionKey(userId: string): (k: HabitPartitionKey)
    ensures k.userId == userId && k.itemType == "HabitMonthRecordEntry"
  {
    HabitPartitionKey(userId, MonthRecordItemType)
  }

  /** `new HabitMonthRecordEntry { Pointer = pointer }`: the field defaults
      are an empty partition key, no dates and no version. */
  function DefaultEntry(pointer: HabitMonthRecordPointer): (e: HabitMonthRecordEntry)
    ensures e.pointer == pointer && e.dates == [] && e.versionNumber == None
    ensures e.partitionKey == HabitPartitionKey("", "")
  {
    HabitMonthRecordEntry(HabitPartitionKey("", ""), pointer, [], None)
  }

  /** `entry.ContainsDate(date)`; a null year or month compares unequal. */
  predicate ContainsDate(e: HabitMonthRecordEntry, d: Date) {
    Some(d.year) == e.pointer.year && Some(d.month) == e.pointer.month && d.day in e.dates
  }

  /** `entry.GetYearMonth()`: fails on a null year, then on a null month. */
  function GetYearMonth(e: HabitMonthRecordEntry): (r: Result<(int, int), Error>)
    ensures r.Ok? <==> e.pointer.year.Some? && e.pointer.month.Some?
    ensures r.Ok? ==> r.value == (e.pointer.year.value, e.pointer.month.value)
    ensures e.pointer.year.None? ==> r == Err(NullField("Year"))
    ensures e.pointer.year.Some? && e.pointer.month.None? ==> r == Err(NullField("Month"))
  {
    match (e.pointer.year, e.pointer.month)
    case (None, _) => Err(NullField("Year"))
    case (Some(_), None) => Err(NullField("Month"))
    case (Some(y), Some(m)) => Ok((y, m))
  }

  /** `days.Select(day => new DateTime(year, month, day))`, enumerated:
      the first day that is not a day of that month raises. */
  function ExpandDays(y: int, m: int, days: seq<int>): (r: Result<seq<Date>, Error>)
    ensures r.Ok? <==> forall i :: 0 <= i < |days| ==> IsValid(Date(y, m, days[i]))
    ensures r.Ok? ==> |r.value| == |days|
    ensures r.Ok? ==> forall i :: 0 <= i < |days| ==> r.value[i] == Date(y, m, days[i])
    ensures r.Err? ==> exists i :: 0 <= i < |days| && r.error == DateOutOfRange(y, m, days[i])
  {
    if days == [] then Ok([])
    else if !IsValid(Date(y, m, days[0])) then Err(DateOutOfRange(y, m, days[0]))
    else
      match ExpandDays(y, m, days[1..])
      case Err(e) => Err(e)
      case Ok(rest) => Ok([Date(y, m, days[0])] + rest)
  }

  /** The record's days as full dates. */
  function RecordDates(e: HabitMonthRecordEntry): (r: Result<seq<Date>, Error>)
  {
    match GetYearMonth(e)
    case Err(err) => Err(err)
    case Ok((y, m)) => ExpandDays(y, m, e.dates)
  }

  /** `ContainsDate` agrees with the record's expansion into dates. */
  lemma ContainsDateMatchesRecordDates(e: HabitMonthRecordEntry, d: Date)
    requires RecordDates(e).Ok?
    ensures ContainsDate(e, d) <==> d in RecordDates(e).value
  {
    var ds := RecordDates(e).value;
    if d in ds {
      var i :| 0 <= i < |ds| && ds[i] == d;
      assert e.dates[i] == d.day;
    }
    if ContainsDate(e, d) {
      var i :| 0 <= i < |e.dates| && e.dates[i] == d.day;
      assert ds[i] == d;
    }
  }

  /** A fresh entry contains no date. */
  lemma DefaultEntryIsEmpty(pointer: HabitMonthRecordPointer, d: Date)
    ensures !ContainsDate(DefaultEntry(pointer), d)
  {
  }

  /** `records.Select(entry => entry.Dates.Count).Sum()`. */
  function AllTimeDoneCount(records: seq<HabitMonthRecordEntry>): (n: nat)
  {
    if records == [] then 0
    else AllTimeDoneCount(records[..|records| - 1]) + |records[|records| - 1].dates|
  }

  /** The records' dates in list order, each record's days in its own
      order; the first failing record's error otherwise. */
  function AllDoneDates(records: seq<HabitMonthRecordEntry>): (r: Result<seq<Date>, Error>)
    ensures r.Ok? ==> |r.value| == AllTimeDoneCount(records)
    ensures r.Ok? ==> forall i :: 0 <= i < |r.value| ==> IsValid(r.value[i])
  {
    if records == [] then Ok([])
    else
      match AllDoneDates(records[..|records| - 1])
      case Err(e) => Err(e)
      case Ok(prefix) =>
        match RecordDates(records[|records| - 1])
        case Err(e) => Err(e)
        case Ok(ds) => Ok(prefix + ds)
  }

  /** A date is among the records' dates exactly when some record contains it. */
  lemma {:induction false} AllDoneDatesMembers(records: seq<HabitMonthRecordEntry>, d: Date)
    requires AllDoneDates(records).Ok?
    ensures d in AllDoneDates(records).value <==> exists k :: 0 <= k < |records| && ContainsDate(records[k], d)
  {
    if records != [] {
      var n := |records| - 1;
      var prefix := records[..n];
      AllDoneDatesMembers(prefix, d);
      ContainsDateMatchesRecordDates(records[n], d);
      if exists k :: 0 <= k < |records| && ContainsDate(records[k], d) {
        var k :| 0 <= k < |records| && ContainsDate(records[k], d);
        if k < n {
          assert ContainsDate(prefix[k], d);
        }
      }
    }
  }

  /** No record repeats a day and no two records share a year and month,
      as the repository keeps the records of one habit. */
  predicate KeptApart(records: seq<HabitMonthRecordEntry>) {
    (forall k, i, j :: 0 <= k < |records| && 0 <= i < j < |records[k].dates| ==> records[k].dates[i] != records[k].dates[j]) &&
    (forall k, l :: 0 <= k < l < |records| ==>
      records[k].pointer.year != records[l].pointer.year || records[k].pointer.month != records[l].pointer.month)
  }

  /** Records kept apart have no date twice among them. */
  lemma {:induction false} AllDoneDatesDistinct(records: seq<HabitMonthRecordEntry>)
    requires AllDoneDates(records).Ok? && KeptApart(records)
    ensures DistinctDates(AllDoneDates(records).value)
  {
    if records != [] {
      var n := |records| - 1;
      var prefix := records[..n];
      var e := records[n];
      assert KeptApart(prefix) by {
        forall k, l | 0 <= k < l < |prefix|
          ensures prefix[k].pointer.year != prefix[l].pointer.year || prefix[k].pointer.month != prefix[l].pointer.month
        {
          assert prefix[k] == records[k] && prefix[l] == records[l];
        }
      }
      AllDoneDatesDistinct(prefix);
      var pv := AllDoneDates(prefix).value;
      var ds := RecordDates(e).value;
      var all := AllDoneDates(records).value;
      assert all == pv + ds;
      forall i, j | 0 <= i < j < |all| ensures all[i] != all[j] {
        if i < |pv| <= j {
          AllDoneDatesMembers(prefix, pv[i]);
          var k :| 0 <= k < |prefix| && ContainsDate(prefix[k], pv[i]);
          assert records[k] == prefix[k];
          assert all[j] == Date(e.pointer.year.value, e.pointer.month.value, e.dates[j - |pv|]);
        } else if |pv| <= i {
          assert all[i] == Date(e.pointer.year.value, e.pointer.month.value, e.dates[i - |pv|]);
          assert all[j] == Date(e.pointer.year.value, e.pointer.month.value, e.dates[j - |pv|]);
        }
      }
    }
  }

  /** Once a prefix of the records fails, the whole list fails with the same error. */
  lemma {:induction false} AllDoneDatesErrorPersists(records: seq<HabitMonthRecordEntry>, i: nat)
    requires i <= |records| && AllDoneDates(records[..i]).Err?
    ensures AllDoneDates(records) == AllDoneDates(records[..i])
    decreases |records| - i
  {
    if i < |records| {
      var n := |records| - 1;
      assert records[..n][..i] == records[..i];
      AllDoneDatesErrorPersists(records[..n], i);
    } else {
      assert records[..i] == records;
    }
  }
}
