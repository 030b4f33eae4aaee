/** `YearContainer`: the month containers of one year, at most one per month. */
module YearContainers {
  import opened Wrappers
  import opened Calendar
  import opened MonthContainers

  /** A month container seen as a value. */
  datatype MonthView = MonthView(month: int, days: seq<int>)

  /** The index of the first container for `month`. */
  function FindMonth(months: seq<MonthView>, month: int): (r: Option<nat>)
    ensures r.Some? ==> r.value < |months| && months[r.value].month == month
    ensures r.Some? ==> forall k :: 0 <= k < r.value ==> months[k].month != month
    ensures r.None? ==> forall k :: 0 <= k < |months| ==> months[k].month != month
  {
    if months == [] then None
    else if months[0].month == month then Some(0)
    else
      match FindMonth(months[1..], month)
      case None => None
      case Some(i) => Some(i + 1)
  }

  predicate UniqueMonths(months: seq<MonthView>) {
    forall i, j :: 0 <= i < j < |months| ==> months[i].month != months[j].month
  }

  /** The year's months after `AddIfNotIncluded(month, day)`. */
  function AddToYear(months: seq<MonthView>, month: int, day: int): seq<MonthView> {
    match FindMonth(months, month)
    case Some(i) => months[i := MonthView(month, AddDay(months[i].days, day))]
    case None => months + [MonthView(month, [day])]
  }

  /** The day is recorded under the month. */
  predicate HoldsInYear(months: seq<MonthView>, month: int, day: int) {
    match FindMonth(months, month)
    case Some(i) => day in months[i].days
    case None => false
  }

  /** Adding never creates a second container for a month. */
  lemma AddToYearKeepsMonthsUnique(months: seq<MonthView>, month: int, day: int)
    requires UniqueMonths(months)
    ensures UniqueMonths(AddToYear(months, month, day))
  {
  }

  /** After adding, the year holds exactly what it held before plus the new
      (month, day). */
  lemma AddToYearContents(months: seq<MonthView>, month: int, day: int)
    ensures HoldsInYear(AddToYear(months, month, day), month, day)
    ensures forall m, d ::
      HoldsInYear(AddToYear(months, month, day), m, d) <==> HoldsInYear(months, m, d) || (m == month && d == day)
  {
    var r := AddToYear(months, month, day);
    match FindMonth(months, month)
    case Some(i) =>
      forall m ensures FindMonth(r, m) == FindMonth(months, m) {
        FindMonthSameKeys(months, r, m);
      }
    case None =>
      forall m ensures FindMonth(r, m) == if m == month then Some(|months|) else FindMonth(months, m) {
        FindMonthAppend(months, MonthView(month, [day]), m);
      }
  }

  /** Only the month keys decide `FindMonth`. */
  lemma {:induction false} FindMonthSameKeys(a: seq<MonthView>, b: seq<MonthView>, month: int)
    requires |a| == |b| && forall k :: 0 <= k < |a| ==> a[k].month == b[k].month
    ensures FindMonth(a, month) == FindMonth(b, month)
  {
    if a != [] {
      FindMonthSameKeys(a[1..], b[1..], month);
    }
  }

  lemma {:induction false} FindMonthAppend(a: seq<MonthView>, v: MonthView, month: int)
    ensures FindMonth(a + [v], month) ==
      match FindMonth(a, month)
      case Some(i) => Some(i)
      case None => if v.month == month then Some(|a|) else None
  {
    if a != [] {
      assert (a + [v])[1..] == a[1..] + [v];
      FindMonthAppend(a[1..], v, month);
    }
  }

  /** Months other than the one added to are left as they were. */
  lemma AddToYearOtherMonths(months: seq<MonthView>, month: int, day: int, other: int)
    requires other != month
    ensures var r := AddToYear(months, month, day);
      match FindMonth(months, other)
      case Some(i) => FindMonth(r, other) == Some(i) && r[i] == months[i]
      case None => FindMonth(r, other).None?
  {
    var r := AddToYear(months, month, day);
    match FindMonth(months, month)
    case Some(i) =>
      FindMonthSameKeys(months, r, other);
    case None =>
      FindMonthAppend(months, MonthView(month, [day]), other);
  }

  class YearContainer {
    const Year: int
    var Months: seq<MonthContainer>
    /** The months as values, one per container, in list order. */
    ghost var Contents: seq<MonthView>
    ghost var Repr: set<object>

    ghost predicate Valid()
      reads this, Repr
    {
      this in Repr
      && (forall m :: m in Months ==> m in Repr)
      && |Contents| == |Months|
      && (forall k :: 0 <= k < |Months| ==> Contents[k] == MonthView(Months[k].Month, Months[k].Days))
      && UniqueMonths(Contents)
    }

    /** `new YearContainer(date)`: the date's year with one month
        container holding the date's day. */
    constructor(date: Date)
      ensures Valid() && fresh(Repr)
      ensures Year == date.year && Contents == [MonthView(date.month, [date.day])]
    {
      Year := date.year;
      var m := new MonthContainer(date.month, date.day);
      Months := [m];
      Contents := [MonthView(date.month, [date.day])];
      Repr := {this, m};
    }

    /** `TryGetMonthContainer(month, out monthContainer)`: the first
        container for the month, or a fresh sentinel `MonthContainer(0, 0)`. */
    method TryGetMonthContainer(month: int) returns (found: bool, monthContainer: MonthContainer)
      requires Valid()
      ensures found <==> FindMonth(Contents, month).Some?
      ensures found ==> monthContainer == Months[FindMonth(Contents, month).value]
      ensures !found ==> fresh(monthContainer) && monthContainer.Month == 0 && monthContainer.Days == [0]
    {
      for i := 0 to |Months|
        invariant forall k :: 0 <= k < i ==> Months[k].Month != month
      {
        if Months[i].Month == month {
          return true, Months[i];
        }
      }
      monthContainer := new MonthContainer(0, 0);
      return false, monthContainer;
    }

    /** `AddIfNotIncluded(month, day)`: adds the day to the month's
        container, or appends a new container for the month. */
    method AddIfNotIncluded(month: int, day: int)
      requires Valid()
      modifies Repr
      ensures Valid() && fresh(Repr - old(Repr))
      ensures Contents == AddToYear(old(Contents), month, day)
    {
      var found, monthContainer := TryGetMonthContainer(month);
      if found {
        ghost var i := FindMonth(Contents, month).value;
        assert forall k :: 0 <= k < |Months| && k != i ==> Months[k].Month != month;
        monthContainer.AddIfNotIncluded(day);
        Contents := Contents[i := MonthView(month, monthContainer.Days)];
        forall k | 0 <= k < |Months| && k != i
          ensures Contents[k] == MonthView(Months[k].Month, Months[k].Days)
        {
          assert Months[k] != monthContainer;
        }
      } else {
        var m := new MonthContainer(month, day);
        Months := Months + [m];
        Contents := Contents + [MonthView(month, [day])];
        Repr := Repr + {m};
      }
      AddToYearKeepsMonthsUnique(old(Contents), month, day);
    }
  }
}
