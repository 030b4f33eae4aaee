/** `MonthContainer`: the days of one month, kept as a list without
    duplicates that only grows. */
module MonthContainers {

  predicate NoDuplicates(s: seq<int>) {
    forall i, j :: 0 <= i < j < |s| ==> s[i] != s[j]
  }

  /** The list after `AddIfNotIncluded(day)`. */
  function AddDay(days: seq<int>, day: int): seq<int> {
    if day in days then days else days + [day]
  }

  /** The day is present afterwards, the earlier days keep their places,
      and nothing else is added. */
  lemma AddDayContents(days: seq<int>, day: int)
    ensures day in AddDay(days, day)
    ensures AddDay(days, day)[..|days|] == days
    ensures forall x :: x in AddDay(days, day) <==> x in days || x == day
  {
  }

  /** Adding a present day changes nothing; an absent one goes at the end. */
  lemma AddDayAppendsOnlyAbsent(days: seq<int>, day: int)
    ensures day in days ==> AddDay(days, day) == days
    ensures day !in days ==> AddDay(days, day) == days + [day] && |AddDay(days, day)| == |days| + 1
  {
  }

  /** Adding the same day twice is adding it once. */
  lemma AddDayIdempotent(days: seq<int>, day: int)
    ensures AddDay(AddDay(days, day), day) == AddDay(days, day)
  {
  }

  /** A list without duplicates stays without duplicates. */
  lemma AddDayKeepsNoDuplicates(days: seq<int>, day: int)
    requires NoDuplicates(days)
    ensures NoDuplicates(AddDay(days, day))
  {
  }

  class MonthContainer {
    const Month: int
    var Days: seq<int>

    /** `new MonthContainer(month, day)`: the month with that one day. */
    constructor(month: int, day: int)
      ensures Month == month && Days == [day]
    {
      Month := month;
      Days := [day];
    }

    /** `AddIfNotIncluded(day)`: appends the day unless `Days.Contains(day)`. */
    method AddIfNotIncluded(day: int)
      modifies this
      ensures Days == AddDay(old(Days), day)
      ensures NoDuplicates(old(Days)) ==> NoDuplicates(Days)
    {
      if day in Days {
        return;
      }
      Days := Days + [day];
    }
  }
}
