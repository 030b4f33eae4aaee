/** `ChartDataCreator`: turns a habit's month records into a cumulative
    step series: a zero point the day before the first done date, one point
    per done date, a plateau point before each gap, and a point at today. */
module ChartDataCreator {
  import opened Wrappers
  import opened Errors
  import opened Calendar
  import opened DateTimeExtensions
  import opened HabitMonthRecords

  /** `ChartData`: two parallel append-only lists, dates and counts. */
  datatype ChartData = ChartData(dates: seq<Date>, values: seq<int>) {
    function Add(d: Date, v: int): ChartData {
      ChartData(dates + [d], values + [v])
    }
  }

  const EmptyChart: ChartData := ChartData([], [])

  predicate AllValid(s: seq<Date>) {
    forall i :: 0 <= i < |s| ==> IsValid(s[i])
  }

  /** `prev.IsTheDayBefore(d)` on dates at midnight. */
  predicate Follows(prev: Date, d: Date)
    requires IsValid(d)
  {
    IsTheDayBefore(Midnight(prev), Midnight(d))
  }

  /** The points emitted once `ds[..n]` has been walked, where `ds` is the
      sorted done dates with the zero point inserted in front. A date whose
      predecessor is not its `PrevDay` gets a plateau point first; by
      `FollowsIsPrevDay` that is the loop's `IsTheDayBefore` test. */
  function Series(ds: seq<Date>, n: nat): (c: ChartData)
    requires AllValid(ds) && 1 <= n <= |ds|
    ensures |c.dates| == |c.values| && n <= |c.dates|
  {
    if n == 1 then ChartData([ds[0]], [0])
    else
      var c := Series(ds, n - 1);
      var c' := if ds[n - 2] == PrevDay(ds[n - 1]) then c else c.Add(PrevDay(ds[n - 1]), n - 2);
      c'.Add(ds[n - 1], n - 1)
  }

  /** The sorted done dates with the zero point in front. */
  function WithZeroPoint(dates: seq<Date>): (ds: seq<Date>)
    requires AllValid(dates) && |dates| > 0
    ensures |ds| == |dates| + 1 && AllValid(ds) && ds[1..] == dates
  {
    [PrevDay(dates[0])] + dates
  }

  /** The chart of non-empty sorted done dates. */
  function ChartOf(dates: seq<Date>, today: Date): ChartData
    requires AllValid(dates) && |dates| > 0
  {
    var ds := WithZeroPoint(dates);
    var c := Series(ds, |ds|);
    if ds[|ds| - 1] != today then c.Add(today, |dates|) else c
  }

  /** What `Create` returns: empty for no records, the first failing
      record's error, an index error when the records hold no day at all,
      the chart of the sorted dates otherwise. */
  function CreateSpec(records: seq<HabitMonthRecordEntry>, today: Date): Result<ChartData, Error> {
    if |records| == 0 then Ok(EmptyChart)
    else
      match AllDoneDates(records)
      case Err(e) => Err(e)
      case Ok(ds) =>
        if ds == [] then Err(IndexOutOfRange)
        else
          SortKeepsValidity(ds);
          Ok(ChartOf(SortDates(ds), today))
  }

  lemma SortKeepsValidity(s: seq<Date>)
    requires AllValid(s)
    ensures AllValid(SortDates(s)) && |SortDates(s)| == |s|
  {
    var r := SortDates(s);
    assert |r| == |multiset(r)| == |multiset(s)| == |s|;
    forall i | 0 <= i < |r| ensures IsValid(r[i]) {
      assert r[i] in multiset(s);
    }
  }

  lemma CreateSpecOfSorted(records: seq<HabitMonthRecordEntry>, today: Date)
    requires |records| > 0 && AllDoneDates(records).Ok? && AllDoneDates(records).value != []
    ensures AllValid(SortDates(AllDoneDates(records).value))
    ensures |SortDates(AllDoneDates(records).value)| > 0
    ensures CreateSpec(records, today) == Ok(ChartOf(SortDates(AllDoneDates(records).value), today))
  {
    SortKeepsValidity(AllDoneDates(records).value);
  }

  /** `GetDatesInChronologicalOrder`: every record's dates, sorted. */
  method GetDatesInChronologicalOrder(records: seq<HabitMonthRecordEntry>) returns (r: Result<seq<Date>, Error>)
    ensures r.Err? <==> AllDoneDates(records).Err?
    ensures r.Err? ==> r.error == AllDoneDates(records).error
    ensures r.Ok? ==> r.value == SortDates(AllDoneDates(records).value)
  {
    var dates: seq<Date> := [];
    for i := 0 to |records|
      invariant AllDoneDates(records[..i]) == Ok(dates)
    {
      assert records[..i + 1][..i] == records[..i];
      var yearMonth := GetYearMonth(records[i]);
      if yearMonth.Err? {
        AllDoneDatesErrorPersists(records, i + 1);
        return Err(yearMonth.error);
      }
      var (year, month) := yearMonth.value;
      var recordedDates := ExpandDays(year, month, records[i].dates);
      if recordedDates.Err? {
        AllDoneDatesErrorPersists(records, i + 1);
        return Err(recordedDates.error);
      }
      dates := dates + recordedDates.value;
    }
    assert records[..|records|] == records;
    return Ok(SortDates(dates));
  }

  /** The loop of `Create` over the dates with the zero point in front:
      a plateau point before each gap, then the date with its running count. */
  method WalkDates(dates: seq<Date>) returns (chart: ChartData, doneCount: int)
    requires AllValid(dates) && |dates| >= 1
    ensures chart == Series(dates, |dates|) && doneCount == |dates| - 1
  {
    chart := EmptyChart.Add(dates[0], 0);
    doneCount := 0;
    var i := 1;
    while i < |dates|
      invariant 1 <= i <= |dates|
      invariant doneCount == i - 1
      invariant chart == Series(dates, i)
    {
      FollowsIsPrevDay(dates[i - 1], dates[i]);
      if !Follows(dates[i - 1], dates[i]) {
        var previousDate := PrevDay(dates[i]);
        chart := chart.Add(previousDate, doneCount);
      }
      doneCount := doneCount + 1;
      chart := chart.Add(dates[i], doneCount);
      i := i + 1;
    }
  }

  /** `ChartDataCreator.Create(habitRecords)`, with `DateTime.Today` passed in. */
  method Create(records: seq<HabitMonthRecordEntry>, today: Date) returns (r: Result<ChartData, Error>)
    ensures r == CreateSpec(records, today)
  {
    if |records| == 0 {
      return Ok(EmptyChart);
    }
    var sorted := GetDatesInChronologicalOrder(records);
    if sorted.Err? {
      return Err(sorted.error);
    }
    var dates := sorted.value;
    if |dates| == 0 {
      return Err(IndexOutOfRange);
    }
    CreateSpecOfSorted(records, today);
    var dayBeforeFirstRecordedHabit := PrevDay(dates[0]);
    var withZeroPoint := [dayBeforeFirstRecordedHabit] + dates;
    assert withZeroPoint == WithZeroPoint(dates);
    var chart, doneCount := WalkDates(withZeroPoint);
    if withZeroPoint[|withZeroPoint| - 1] != today {
      chart := chart.Add(today, doneCount);
    }
    return Ok(chart);
  }

  /** `Follows` is "the day before" on dates: no plateau exactly when the
      previous date is `PrevDay` of this one. */
  lemma FollowsIsPrevDay(prev: Date, d: Date)
    requires IsValid(d)
    ensures Follows(prev, d) <==> prev == PrevDay(d)
  {
  }

  /** The values `0, 1, ..., n - 1`. */
  function Counts(n: nat): (s: seq<int>)
    ensures |s| == n && forall i :: 0 <= i < n ==> s[i] == i
  {
    if n == 0 then [] else Counts(n - 1) + [n - 1]
  }

  /** Shape of the points after walking `ds[..n]`: zero point first, the
      n-th date last with value n - 1, between n and 2n - 1 points. */
  lemma {:induction false} SeriesShape(ds: seq<Date>, n: nat)
    requires AllValid(ds) && 1 <= n <= |ds|
    ensures var c := Series(ds, n);
      |c.dates| == |c.values| && n <= |c.dates| <= 2 * n - 1
      && c.dates[0] == ds[0] && c.values[0] == 0
      && c.dates[|c.dates| - 1] == ds[n - 1] && c.values[|c.values| - 1] == n - 1
  {
    if n > 1 {
      SeriesShape(ds, n - 1);
    }
  }

  /** The values after walking `ds[..n]` are non-decreasing and within
      0..n - 1. */
  lemma {:induction false} SeriesValues(ds: seq<Date>, n: nat)
    requires AllValid(ds) && 1 <= n <= |ds|
    ensures forall j :: 0 <= j < |Series(ds, n).values| ==> 0 <= Series(ds, n).values[j] <= n - 1
    ensures forall i, j :: 0 <= i <= j < |Series(ds, n).values| ==> Series(ds, n).values[i] <= Series(ds, n).values[j]
  {
    if n > 1 {
      SeriesValues(ds, n - 1);
      var p := Series(ds, n - 1).values;
      var v := Series(ds, n).values;
      var tail: seq<int> := if ds[n - 2] == PrevDay(ds[n - 1]) then [n - 1] else [n - 2, n - 1];
      assert v == p + tail;
      forall j | 0 <= j < |v| ensures 0 <= v[j] <= n - 1 {
        if j < |p| {
          assert v[j] == p[j];
        } else {
          assert v[j] == tail[j - |p|];
        }
      }
      forall i, j | 0 <= i <= j < |v| ensures v[i] <= v[j] {
        if j < |p| {
          assert v[i] == p[i] && v[j] == p[j];
        } else if i < |p| {
          assert v[i] == p[i] && v[j] == tail[j - |p|];
        } else {
          assert v[i] == tail[i - |p|] && v[j] == tail[j - |p|];
        }
      }
    }
  }

  /** One more date keeps the point at index `j` and adds at least one
      point after the last. */
  lemma SeriesStep(ds: seq<Date>, n: nat, j: nat)
    requires AllValid(ds) && 2 <= n <= |ds| && j < |Series(ds, n - 1).dates|
    ensures |Series(ds, n - 1).dates| < |Series(ds, n).dates|
    ensures Series(ds, n).dates[j] == Series(ds, n - 1).dates[j]
    ensures Series(ds, n).values[j] == Series(ds, n - 1).values[j]
  {
  }

  /** A point once emitted keeps its date and value. */
  lemma {:induction false} SeriesPointStable(ds: seq<Date>, m: nat, n: nat, j: nat)
    requires AllValid(ds) && 1 <= m <= n <= |ds| && j < |Series(ds, m).dates|
    ensures j < |Series(ds, n).dates|
    ensures Series(ds, n).dates[j] == Series(ds, m).dates[j]
    ensures Series(ds, n).values[j] == Series(ds, m).values[j]
  {
    if m < n {
      SeriesPointStable(ds, m, n - 1, j);
      SeriesPointExtend(ds, m, n, j);
    }
  }

  /** A point that survived up to `n - 1` survives one more date. */
  lemma SeriesPointExtend(ds: seq<Date>, m: nat, n: nat, j: nat)
    requires AllValid(ds) && 1 <= m < n <= |ds| && j < |Series(ds, m).dates|
    requires j < |Series(ds, n - 1).dates|
    requires Series(ds, n - 1).dates[j] == Series(ds, m).dates[j]
    requires Series(ds, n - 1).values[j] == Series(ds, m).values[j]
    ensures j < |Series(ds, n).dates|
    ensures Series(ds, n).dates[j] == Series(ds, m).dates[j]
    ensures Series(ds, n).values[j] == Series(ds, m).values[j]
  {
    SeriesStep(ds, n, j);
  }

  /** Walking further only appends points. */
  lemma SeriesPrefix(ds: seq<Date>, m: nat, n: nat)
    requires AllValid(ds) && 1 <= m <= n <= |ds|
    ensures Series(ds, m).dates <= Series(ds, n).dates
    ensures Series(ds, m).values <= Series(ds, n).values
  {
    var a := Series(ds, m);
    var b := Series(ds, n);
    SeriesPointStable(ds, m, n, |a.dates| - 1);
    forall j | 0 <= j < |a.dates|
      ensures b.dates[j] == a.dates[j] && b.values[j] == a.values[j]
    {
      SeriesPointStable(ds, m, n, j);
    }
    assert a.dates == b.dates[..|a.dates|];
    assert a.values == b.values[..|a.values|];
  }

  /** The point before the point of `ds[k]` holds k - 1 and is the
      previous date when the two are adjacent, a plateau point on the day
      before `ds[k]` otherwise. */
  lemma SeriesLastTwo(ds: seq<Date>, k: nat, j: nat)
    requires AllValid(ds) && 1 <= k < |ds| && j == |Series(ds, k + 1).dates| - 1
    ensures 1 <= j && Series(ds, k + 1).values[j - 1] == k - 1
    ensures ds[k - 1] == PrevDay(ds[k]) ==> Series(ds, k + 1).dates[j - 1] == ds[k - 1]
    ensures ds[k - 1] != PrevDay(ds[k]) ==> Series(ds, k + 1).dates[j - 1] == PrevDay(ds[k])
  {
    SeriesShape(ds, k);
  }

  /** The point of `ds[k]` is the last one emitted once `ds[..k + 1]` is
      walked, and it keeps its place and value k for the rest of the walk. */
  lemma SeriesPointOf(ds: seq<Date>, n: nat, k: nat) returns (j: nat)
    requires AllValid(ds) && 0 <= k < n <= |ds|
    ensures j == |Series(ds, k + 1).dates| - 1
    ensures j < |Series(ds, n).dates| && Series(ds, n).dates[j] == ds[k] && Series(ds, n).values[j] == k
  {
    j := |Series(ds, k + 1).dates| - 1;
    SeriesShape(ds, k + 1);
    SeriesPointStable(ds, k + 1, n, j);
  }

  /** The point before the one of `ds[k]` (at index `j` once `ds[..k + 1]`
      is walked) stays in place as the walk goes on to `n` dates. */
  lemma SeriesPointBefore(ds: seq<Date>, n: nat, k: nat, j: nat)
    requires AllValid(ds) && 1 <= k < n <= |ds| && j == |Series(ds, k + 1).dates| - 1
    ensures 0 < j < |Series(ds, n).dates| && Series(ds, n).values[j - 1] == k - 1
    ensures ds[k - 1] == PrevDay(ds[k]) ==> Series(ds, n).dates[j - 1] == ds[k - 1]
    ensures ds[k - 1] != PrevDay(ds[k]) ==> Series(ds, n).dates[j - 1] == PrevDay(ds[k])
  {
    SeriesLastTwo(ds, k, j);
    SeriesPointStable(ds, k + 1, n, j - 1);
  }

  /** The dates one more step adds: the date itself, after a plateau point
      on its day before unless the previous date is adjacent. */
  function StepDates(prev: Date, d: Date): (r: seq<Date>)
    requires IsValid(d)
    ensures 1 <= |r| <= 2 && r[|r| - 1] == d && (|r| == 1 <==> prev == PrevDay(d))
  {
    if prev == PrevDay(d) then [d] else [PrevDay(d), d]
  }

  /** Walking one more date appends its step dates. */
  lemma SeriesDatesStep(ds: seq<Date>, n: nat)
    requires AllValid(ds) && 2 <= n <= |ds|
    ensures Series(ds, n).dates == Series(ds, n - 1).dates + StepDates(ds[n - 2], ds[n - 1])
  {
  }

  /** With adjacent dates in order, the added dates are strictly increasing
      and come after the previous date. */
  lemma StepDatesIncrease(prev: Date, d: Date)
    requires IsValid(prev) && IsValid(d) && Before(prev, d)
    ensures IsStrictlyIncreasing(StepDates(prev, d)) && Before(prev, StepDates(prev, d)[0])
  {
    if prev != PrevDay(d) {
      PrevDayIsImmediate(d, prev);
    }
  }

  /** Joining two strictly increasing lists, the first ending before the
      second starts, gives a strictly increasing list. */
  lemma JoinStrictlyIncreasing(a: seq<Date>, b: seq<Date>)
    requires IsStrictlyIncreasing(a) && IsStrictlyIncreasing(b)
    requires a != [] && b != [] ==> Before(a[|a| - 1], b[0])
    ensures IsStrictlyIncreasing(a + b)
  {
    var r := a + b;
    forall i, j | 0 <= i < j < |r| ensures Before(r[i], r[j]) {
      if i < |a| && j >= |a| {
        var x, y := r[i], r[j];
        assert x == a[i] && y == b[j - |a|];
        if i < |a| - 1 {
          BeforeIsStrictTotalOrder(x, a[|a| - 1], b[0]);
          BeforeIsStrictTotalOrder(x, b[0], y);
        } else {
          BeforeIsStrictTotalOrder(x, b[0], y);
        }
      }
    }
  }

  /** One step keeps the point dates strictly increasing when the new date
      comes after the previous one. */
  lemma SeriesStepIncreasing(ds: seq<Date>, n: nat)
    requires AllValid(ds) && 2 <= n <= |ds| && Before(ds[n - 2], ds[n - 1])
    requires IsStrictlyIncreasing(Series(ds, n - 1).dates)
    ensures IsStrictlyIncreasing(Series(ds, n).dates)
  {
    SeriesShape(ds, n - 1);
    var c := Series(ds, n - 1).dates;
    var tail := StepDates(ds[n - 2], ds[n - 1]);
    StepDatesIncrease(ds[n - 2], ds[n - 1]);
    assert Before(c[|c| - 1], tail[0]);
    JoinStrictlyIncreasing(c, tail);
    SeriesDatesStep(ds, n);
  }

  /** With strictly increasing dates the points' dates are strictly increasing. */
  lemma {:induction false} SeriesStrictlyIncreasing(ds: seq<Date>, n: nat)
    requires AllValid(ds) && 1 <= n <= |ds| && IsStrictlyIncreasing(ds)
    ensures IsStrictlyIncreasing(Series(ds, n).dates)
  {
    if n > 1 {
      SeriesStrictlyIncreasing(ds, n - 1);
      SeriesStepIncreasing(ds, n);
    }
  }

  /** A run of consecutive days: no plateau points, the values count up by one. */
  lemma {:induction false} SeriesOfConsecutiveDays(ds: seq<Date>, n: nat)
    requires AllValid(ds) && 1 <= n <= |ds|
    requires forall i :: 0 < i < |ds| ==> ds[i - 1] == PrevDay(ds[i])
    ensures Series(ds, n) == ChartData(ds[..n], Counts(n))
  {
    if n > 1 {
      SeriesOfConsecutiveDays(ds, n - 1);
      assert ds[..n] == ds[..n - 1] + [ds[n - 1]];
    }
  }

  /** The chart starts with the zero point on the day before the first
      done date, followed by the first done date with value 1. */
  lemma ChartStartsAtZero(dates: seq<Date>, today: Date)
    requires AllValid(dates) && |dates| > 0
    ensures var c := ChartOf(dates, today);
      |c.dates| >= 2 && |c.values| == |c.dates|
      && c.dates[0] == PrevDay(dates[0]) && c.values[0] == 0
      && c.dates[1] == dates[0] && c.values[1] == 1
  {
    var ds := WithZeroPoint(dates);
    SeriesShape(ds, |ds|);
    SeriesShape(ds, 2);
    SeriesPrefix(ds, 2, |ds|);
  }

  /** The chart ends at today with the total number of done dates, and has
      between N + 1 and 2N + 1 points for N done dates. */
  lemma ChartEndsToday(dates: seq<Date>, today: Date)
    requires AllValid(dates) && |dates| > 0
    ensures var c := ChartOf(dates, today);
      |c.dates| == |c.values| && |dates| + 1 <= |c.dates| <= 2 * |dates| + 1
      && c.dates[|c.dates| - 1] == today && c.values[|c.values| - 1] == |dates|
  {
    var ds := WithZeroPoint(dates);
    SeriesShape(ds, |ds|);
    if |ds| > 2 {
      // the first done date never gets a plateau point
      SeriesShape(ds, 2);
      assert |Series(ds, 2).dates| == 2;
      SeriesTailBound(ds, |ds|);
    }
  }

  /** From the first done date on, each date adds one or two points. */
  lemma {:induction false} SeriesTailBound(ds: seq<Date>, n: nat)
    requires AllValid(ds) && 2 <= n <= |ds| && ds[0] == PrevDay(ds[1])
    ensures |Series(ds, n).dates| <= 2 * n - 2
  {
    if n > 2 {
      SeriesTailBound(ds, n - 1);
    }
  }

  /** Values never decrease and stay within 0..N. */
  lemma ChartValuesNonDecreasing(dates: seq<Date>, today: Date)
    requires AllValid(dates) && |dates| > 0
    ensures var c := ChartOf(dates, today);
      (forall j :: 0 <= j < |c.values| ==> 0 <= c.values[j] <= |dates|)
      && (forall i, j :: 0 <= i <= j < |c.values| ==> c.values[i] <= c.values[j])
  {
    var ds := WithZeroPoint(dates);
    SeriesShape(ds, |ds|);
    SeriesValues(ds, |ds|);
  }

  /** The k-th done date (from 0) appears at index `j` with value k + 1;
      the point before it is the previous done date when the two are
      adjacent days, and otherwise a plateau point on its day before that
      still carries the previous count k. */
  lemma ChartPointOfDate(dates: seq<Date>, today: Date, k: nat) returns (j: nat)
    requires AllValid(dates) && k < |dates|
    ensures var c := ChartOf(dates, today);
      0 < j < |c.dates| && |c.values| == |c.dates|
      && c.dates[j] == dates[k] && c.values[j] == k + 1
      && (k > 0 && dates[k - 1] != PrevDay(dates[k]) ==> c.dates[j - 1] == PrevDay(dates[k]) && c.values[j - 1] == k)
      && (k > 0 && dates[k - 1] == PrevDay(dates[k]) ==> c.dates[j - 1] == dates[k - 1] && c.values[j - 1] == k)
  {
    var ds := WithZeroPoint(dates);
    var s := Series(ds, |ds|);
    var c := ChartOf(dates, today);
    var i := k + 1;
    j := SeriesPointOf(ds, |ds|, i);
    SeriesPointBefore(ds, |ds|, i, j);
    assert ds[i] == dates[k];
    if k > 0 {
      assert ds[i - 1] == dates[k - 1];
    }
    assert c.dates[j] == s.dates[j] && c.values[j] == s.values[j];
    assert c.dates[j - 1] == s.dates[j - 1] && c.values[j - 1] == s.values[j - 1];
  }

  /** Every done date appears among the chart's dates. */
  lemma ChartShowsEveryDate(dates: seq<Date>, today: Date)
    requires AllValid(dates)
    ensures forall k :: 0 <= k < |dates| ==> dates[k] in ChartOf(dates, today).dates
  {
    forall k | 0 <= k < |dates| ensures dates[k] in ChartOf(dates, today).dates {
      var j := ChartPointOfDate(dates, today, k);
    }
  }

  /** Strictly increasing done dates, none after today, give strictly
      increasing chart dates. */
  lemma ChartStrictlyIncreasing(dates: seq<Date>, today: Date)
    requires AllValid(dates) && |dates| > 0 && IsStrictlyIncreasing(dates)
    requires AtOrBefore(dates[|dates| - 1], today)
    ensures IsStrictlyIncreasing(ChartOf(dates, today).dates)
  {
    var ds := WithZeroPoint(dates);
    assert IsStrictlyIncreasing(ds) by {
      forall i, j | 0 <= i < j < |ds| ensures Before(ds[i], ds[j]) {
        if i == 0 {
          BeforeIsStrictTotalOrder(ds[0], dates[0], dates[j - 1]);
        }
      }
    }
    SeriesStrictlyIncreasing(ds, |ds|);
    SeriesShape(ds, |ds|);
  }

  /** Records kept apart, with a done date and none after today, chart with
      strictly increasing dates. */
  lemma CreateOfKeptApartStrictlyIncreasing(records: seq<HabitMonthRecordEntry>, today: Date)
    requires |records| > 0 && AllDoneDates(records).Ok? && AllDoneDates(records).value != []
    requires KeptApart(records)
    requires forall d :: d in AllDoneDates(records).value ==> AtOrBefore(d, today)
    ensures CreateSpec(records, today).Ok?
    ensures IsStrictlyIncreasing(CreateSpec(records, today).value.dates)
  {
    var ds := AllDoneDates(records).value;
    var sorted := SortDates(ds);
    CreateSpecOfSorted(records, today);
    AllDoneDatesDistinct(records);
    SortDatesOfDistinct(ds);
    assert sorted[|sorted| - 1] in multiset(ds);
    ChartStrictlyIncreasing(sorted, today);
  }

  /** A streak of consecutive days ending today charts as the zero point
      followed by one point per day with values 1, 2, ..., N. */
  lemma ChartOfStreakEndingToday(dates: seq<Date>, today: Date)
    requires AllValid(dates) && |dates| > 0 && dates[|dates| - 1] == today
    requires forall i :: 0 < i < |dates| ==> dates[i - 1] == PrevDay(dates[i])
    ensures ChartOf(dates, today) == ChartData(WithZeroPoint(dates), Counts(|dates| + 1))
  {
    var ds := WithZeroPoint(dates);
    assert forall i :: 0 < i < |ds| ==> ds[i - 1] == PrevDay(ds[i]) by {
      forall i | 0 < i < |ds| ensures ds[i - 1] == PrevDay(ds[i]) {
        if i > 1 {
          assert ds[i - 1] == dates[i - 2] && ds[i] == dates[i - 1];
        }
      }
    }
    SeriesOfConsecutiveDays(ds, |ds|);
    assert ds[..|ds|] == ds;
  }

  /** Two done dates a week apart, the second today: zero point, first
      date, plateau on the day before the second, second date. */
  lemma ChartWithGap()
    ensures ChartOf([Date(2024, 1, 1), Date(2024, 1, 8)], Date(2024, 1, 8))
      == ChartData([Date(2023, 12, 31), Date(2024, 1, 1), Date(2024, 1, 7), Date(2024, 1, 8)], [0, 1, 1, 2])
  {
    var dates := [Date(2024, 1, 1), Date(2024, 1, 8)];
    assert PrevDay(Date(2024, 1, 1)) == Date(2023, 12, 31);
    assert PrevDay(Date(2024, 1, 8)) == Date(2024, 1, 7);
    var ds := WithZeroPoint(dates);
    assert ds == [Date(2023, 12, 31), Date(2024, 1, 1), Date(2024, 1, 8)];
    assert Series(ds, 2) == ChartData([Date(2023, 12, 31), Date(2024, 1, 1)], [0, 1]);
  }

  /** A done date other than today gets a final point at today repeating the total. */
  lemma ChartOfOldDate()
    ensures ChartOf([Date(2024, 3, 1)], Date(2024, 3, 5))
      == ChartData([Date(2024, 2, 29), Date(2024, 3, 1), Date(2024, 3, 5)], [0, 1, 1])
  {
    assert PrevDay(Date(2024, 3, 1)) == Date(2024, 2, 29);
  }

  /** Records that exist but hold no day make `Create` fail on the first
      date of an empty list. */
  lemma {:induction false} CreateOfRecordsWithoutDays(records: seq<HabitMonthRecordEntry>, today: Date)
    requires |records| > 0
    requires forall i :: 0 <= i < |records| ==>
      records[i].pointer.year.Some? && records[i].pointer.month.Some? && records[i].dates == []
    ensures CreateSpec(records, today) == Err(IndexOutOfRange)
  {
    NoDaysNoDates(records);
  }

  lemma {:induction false} NoDaysNoDates(records: seq<HabitMonthRecordEntry>)
    requires forall i :: 0 <= i < |records| ==>
      records[i].pointer.year.Some? && records[i].pointer.month.Some? && records[i].dates == []
    ensures AllDoneDates(records) == Ok([])
  {
    if records != [] {
      NoDaysNoDates(records[..|records| - 1]);
      var last := records[|records| - 1];
      assert ExpandDays(last.pointer.year.value, last.pointer.month.value, []) == Ok([]);
    }
  }

  /** A successful chart ends at today with the all-time done count, and
      every done date of the records appears on it. */
  lemma CreateEndsWithAllTimeCount(records: seq<HabitMonthRecordEntry>, today: Date)
    requires |records| > 0 && CreateSpec(records, today).Ok?
    ensures var c := CreateSpec(records, today).value;
      |c.dates| > 0 && |c.values| == |c.dates|
      && c.dates[|c.dates| - 1] == today && c.values[|c.values| - 1] == AllTimeDoneCount(records)
    ensures forall d :: d in AllDoneDates(records).value ==> d in CreateSpec(records, today).value.dates
  {
    var ds := AllDoneDates(records).value;
    CreateSpecOfSorted(records, today);
    var sorted := SortDates(ds);
    var c := ChartOf(sorted, today);
    assert CreateSpec(records, today).value == c;
    SortKeepsValidity(ds);
    ChartEndsToday(sorted, today);
    ChartShowsEveryDate(sorted, today);
    forall d | d in ds ensures d in c.dates {
      assert d in multiset(sorted);
      var k :| 0 <= k < |sorted| && sorted[k] == d;
    }
  }
}
