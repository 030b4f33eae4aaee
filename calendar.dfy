/** The proleptic Gregorian calendar of .NET's DateTime, reduced to what the
    modelled code uses: month lengths, validity, the (year, month, day)
    order, and stepping one day forward or back. */
module Calendar {

  /** A calendar date: `Date` in the outputs, or a `DateTime` at midnight. */
  datatype Date = Date(year: int, month: int, day: int)

  /** A `DateTime`: a calendar date and the ticks elapsed since its midnight. */
  datatype DateTime = DateTime(date: Date, timeOfDay: int)

  const TicksPerDay: int := 864_000_000_000

  predicate IsLeapYear(y: int) {
    y % 4 == 0 && (y % 100 != 0 || y % 400 == 0)
  }

  /** `DateTime.DaysInMonth(year, month)`. */
  function DaysInMonth(y: int, m: int): (n: int)
    requires 1 <= m <= 12
    ensures 28 <= n <= 31
    ensures n == 29 <==> m == 2 && IsLeapYear(y)
    ensures n == 28 <==> m == 2 && !IsLeapYear(y)
  {
    if m == 2 then (if IsLeapYear(y) then 29 else 28)
    else if m == 4 || m == 6 || m == 9 || m == 11 then 30
    else 31
  }

  /** The dates `new DateTime(year, month, day)` accepts (years unbounded). */
  predicate IsValid(d: Date) {
    1 <= d.month <= 12 && 1 <= d.day <= DaysInMonth(d.year, d.month)
  }

  predicate IsValidDateTime(t: DateTime) {
    IsValid(t.date) && 0 <= t.timeOfDay < TicksPerDay
  }

  /** The `DateTime` at the start of a date. */
  function Midnight(d: Date): DateTime {
    DateTime(d, 0)
  }

  /** Strictly earlier in (year, month, day) order: the order of `DateTime`
      comparison and of `OrderBy(Year).ThenBy(Month).ThenBy(Day)`. */
  predicate Before(a: Date, b: Date) {
    a.year < b.year || (a.year == b.year && (a.month < b.month || (a.month == b.month && a.day < b.day)))
  }

  /** `a <= b` on dates. */
  predicate AtOrBefore(a: Date, b: Date) {
    !Before(b, a)
  }

  lemma BeforeIsStrictTotalOrder(a: Date, b: Date, c: Date)
    ensures !Before(a, a)
    ensures Before(a, b) ==> !Before(b, a)
    ensures Before(a, b) && Before(b, c) ==> Before(a, c)
    ensures a == b || Before(a, b) || Before(b, a)
  {
  }

  /** `date.AddDays(1)` on the calendar date. */
  function NextDay(d: Date): (r: Date)
    requires IsValid(d)
    ensures IsValid(r) && Before(d, r)
  {
    if d.day < DaysInMonth(d.year, d.month) then Date(d.year, d.month, d.day + 1)
    else if d.month < 12 then Date(d.year, d.month + 1, 1)
    else Date(d.year + 1, 1, 1)
  }

  /** `date.AddDays(-1)` on the calendar date. */
  function PrevDay(d: Date): (r: Date)
    requires IsValid(d)
    ensures IsValid(r) && Before(r, d)
  {
    if d.day > 1 then Date(d.year, d.month, d.day - 1)
    else if d.month > 1 then Date(d.year, d.month - 1, DaysInMonth(d.year, d.month - 1))
    else Date(d.year - 1, 12, 31)
  }

  /** Stepping back then forward returns to the same date. */
  lemma NextDayOfPrevDay(d: Date)
    requires IsValid(d)
    ensures NextDay(PrevDay(d)) == d
  {
  }

  /** No valid date lies strictly between a date and its next day. */
  lemma NextDayIsImmediate(d: Date, x: Date)
    requires IsValid(d) && IsValid(x) && Before(d, x)
    ensures AtOrBefore(NextDay(d), x)
  {
  }

  /** No valid date lies strictly between a date's previous day and the date. */
  lemma PrevDayIsImmediate(d: Date, x: Date)
    requires IsValid(d) && IsValid(x) && Before(x, d)
    ensures AtOrBefore(x, PrevDay(d))
  {
  }

  /** Stepping forward then back returns to the same date. */
  lemma PrevDayOfNextDay(d: Date)
    requires IsValid(d)
    ensures PrevDay(NextDay(d)) == d
  {
  }

  /** A valid date has exactly one predecessor. */
  lemma NextDayInjective(a: Date, b: Date)
    requires IsValid(a) && IsValid(b)
    ensures NextDay(a) == NextDay(b) ==> a == b
  {
    if NextDay(a) == NextDay(b) {
      PrevDayOfNextDay(a);
      PrevDayOfNextDay(b);
    }
  }

  /** `DateTime.AddDays(-1)`: back one calendar day, same time of day. */
  function AddDayBack(t: DateTime): (r: DateTime)
    requires IsValid(t.date)
    ensures IsValid(r.date) && r.timeOfDay == t.timeOfDay && NextDay(r.date) == t.date
  {
    DateTime(PrevDay(t.date), t.timeOfDay)
  }

  /** Ascending in (year, month, day) order, duplicates allowed. */
  predicate IsSorted(s: seq<Date>) {
    forall i, j :: 0 <= i < j < |s| ==> AtOrBefore(s[i], s[j])
  }

  /** Ascending with no duplicates. */
  predicate IsStrictlyIncreasing(s: seq<Date>) {
    forall i, j :: 0 <= i < j < |s| ==> Before(s[i], s[j])
  }

  /** No date occurs twice. */
  predicate DistinctDates(s: seq<Date>) {
    forall i, j :: 0 <= i < j < |s| ==> s[i] != s[j]
  }

  /** A date no later than the head of a sorted list can go in front of it. */
  lemma SortedCons(a: Date, s: seq<Date>)
    requires IsSorted(s) && (s == [] || AtOrBefore(a, s[0]))
    ensures IsSorted([a] + s)
  {
    var r := [a] + s;
    forall i, j | 0 <= i < j < |r|
      ensures AtOrBefore(r[i], r[j])
    {
      if i == 0 && j > 1 {
        assert r[j] == s[j - 1] && AtOrBefore(s[0], s[j - 1]);
      }
    }
  }

  function InsertSorted(x: Date, s: seq<Date>): (r: seq<Date>)
    requires IsSorted(s)
    ensures IsSorted(r) && r != [] && (r[0] == x || (s != [] && r[0] == s[0]))
  {
    if s == [] then [x]
    else if AtOrBefore(x, s[0]) then
      SortedCons(x, s);
      [x] + s
    else
      var tail := s[1..];
      assert s == [s[0]] + tail;
      assert IsSorted(tail) && (tail == [] || AtOrBefore(s[0], tail[0]));
      var rest := InsertSorted(x, tail);
      SortedCons(s[0], rest);
      [s[0]] + rest
  }

  /** Inserting adds exactly the one date and loses none. */
  lemma {:induction false} InsertSortedCounts(x: Date, s: seq<Date>)
    requires IsSorted(s)
    ensures multiset(InsertSorted(x, s)) == multiset(s) + multiset{x}
  {
    if s != [] && !AtOrBefore(x, s[0]) {
      assert s == [s[0]] + s[1..];
      InsertSortedCounts(x, s[1..]);
    }
  }

  /** The chronological reordering done by
      `OrderBy(date => date.Year).ThenBy(date => date.Month).ThenBy(date => date.Day)`. */
  function SortDates(s: seq<Date>): (r: seq<Date>)
    ensures IsSorted(r)
    ensures multiset(r) == multiset(s)
  {
    if s == [] then []
    else
      assert s == [s[0]] + s[1..];
      InsertSortedCounts(s[0], SortDates(s[1..]));
      InsertSorted(s[0], SortDates(s[1..]))
  }

  /** Two sorted arrangements of the same dates are equal, so the sorted
      order of a multiset of dates is unique. */
  lemma {:induction false} SortedUnique(a: seq<Date>, b: seq<Date>)
    requires IsSorted(a) && IsSorted(b) && multiset(a) == multiset(b)
    ensures a == b
  {
    if a != [] {
      assert b != [] by { assert |multiset(b)| == |multiset(a)|; }
      assert a[0] in multiset(b);
      assert b[0] in multiset(a);
      assert a[0] == b[0] by {
        var i :| 0 <= i < |b| && b[i] == a[0];
        var j :| 0 <= j < |a| && a[j] == b[0];
        assert AtOrBefore(b[0], b[i]) || i == 0;
        assert AtOrBefore(a[0], a[j]) || j == 0;
      }
      assert a == [a[0]] + a[1..];
      assert b == [b[0]] + b[1..];
      assert multiset(a) == multiset{a[0]} + multiset(a[1..]);
      assert multiset(b) == multiset{b[0]} + multiset(b[1..]);
      assert multiset(a[1..]) == multiset(a) - multiset{a[0]};
      assert multiset(b[1..]) == multiset(b) - multiset{b[0]};
      SortedUnique(a[1..], b[1..]);
    }
  }

  /** Sorting an already sorted list leaves it as it is. */
  lemma SortDatesOfSorted(s: seq<Date>)
    requires IsSorted(s)
    ensures SortDates(s) == s
  {
    SortedUnique(SortDates(s), s);
  }

  /** A list without repeated dates holds each of its dates once. */
  lemma {:induction false} DistinctDatesCountOnce(s: seq<Date>)
    requires DistinctDates(s)
    ensures forall d :: multiset(s)[d] <= 1
  {
    if s != [] {
      assert s == [s[0]] + s[1..];
      DistinctDatesCountOnce(s[1..]);
      assert s[0] !in s[1..];
    }
  }

  /** A list holding each of its dates once has no repeated date. */
  lemma CountOnceDistinctDates(s: seq<Date>)
    requires forall d :: multiset(s)[d] <= 1
    ensures DistinctDates(s)
  {
    forall i, j | 0 <= i < j < |s| ensures s[i] != s[j] {
      assert s == s[..j] + s[j..];
      assert s[i] in s[..j] && s[j] in s[j..];
      assert multiset(s) == multiset(s[..j]) + multiset(s[j..]);
      assert multiset(s[..j])[s[i]] >= 1 && multiset(s[j..])[s[j]] >= 1 && multiset(s)[s[j]] <= 1;
    }
  }

  /** Sorting dates none of which repeats gives them in strictly
      increasing order. */
  lemma SortDatesOfDistinct(s: seq<Date>)
    requires DistinctDates(s)
    ensures IsStrictlyIncreasing(SortDates(s))
  {
    var r := SortDates(s);
    DistinctDatesCountOnce(s);
    CountOnceDistinctDates(r);
    forall i, j | 0 <= i < j < |r| ensures Before(r[i], r[j]) {
      BeforeIsStrictTotalOrder(r[i], r[j], r[j]);
    }
  }

  /** `a <= b` on `DateTime`: by date, then by time of day. */
  predicate TimeAtOrBefore(a: DateTime, b: DateTime) {
    Before(a.date, b.date) || (a.date == b.date && a.timeOfDay <= b.timeOfDay)
  }
}
