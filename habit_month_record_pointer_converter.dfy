/** `HabitMonthRecordPointerConverter`: the range key of a month record as
    the ordered values [habit id, year, month]. */
module HabitMonthRecordPointerConverter {
  import opened Wrappers
  import opened Errors
  import opened Digits
  import opened PropertyDefinitions
  import opened HabitMonthRecords

  function PropertyDefinitionList(): (defs: seq<PropertyDefinition>)
    ensures |defs| == 3
  {
    [PropertyDefinition(HabitId, GuidPattern),
     PropertyDefinition(Year, YearPattern),
     PropertyDefinition(Month, MonthPattern)]
  }

  /** `int?.ToString()`: the number's text, or "" for null. The
      `?? string.Empty` after it never applies. */
  function NullableToString(v: Option<int>): (s: string)
    ensures s == "" <==> v.None?
  {
    match v
    case None => ""
    case Some(i) => IntToString(i)
  }

  /** The text the pointer holds for one property. */
  function PropertyText(p: HabitMonthRecordPointer, name: PropertyName): string {
    match name
    case HabitId => p.habitId
    case Year => NullableToString(p.year)
    case Month => NullableToString(p.month)
    case _ => ""
  }

  function ToOrderedValues(p: HabitMonthRecordPointer): (values: seq<string>)
    ensures |values| == 3 && values[0] == p.habitId
  {
    [p.habitId, NullableToString(p.year), NullableToString(p.month)]
  }

  /** `new HabitMonthRecordPointer(values[0], int.Parse(values[1]), int.Parse(values[2]))`,
      evaluated left to right. */
  function ToModel(values: seq<string>): (r: Result<HabitMonthRecordPointer, Error>)
    ensures |values| < 2 ==> r == Err(IndexOutOfRange)
    ensures r.Ok? ==> |values| >= 3 && r.value.habitId == values[0]
    ensures r.Ok? ==> r.value.year.Some? && r.value.month.Some?
    ensures r.Ok? ==> ParseInt(values[1]) == Ok(r.value.year.value) && ParseInt(values[2]) == Ok(r.value.month.value)
  {
    if |values| < 2 then Err(IndexOutOfRange)
    else
      match ParseInt(values[1])
      case Err(e) => Err(e)
      case Ok(y) =>
        if |values| < 3 then Err(IndexOutOfRange)
        else
          match ParseInt(values[2])
          case Err(e) => Err(e)
          case Ok(m) => Ok(HabitMonthRecordPointer(values[0], Some(y), Some(m)))
  }

  /** The i-th ordered value is the text of the i-th declared property. */
  lemma OrderedValuesFollowPropertyDefinitions(p: HabitMonthRecordPointer, i: nat)
    requires i < 3
    ensures ToOrderedValues(p)[i] == PropertyText(p, PropertyDefinitionList()[i].name)
  {
  }

  /** A pointer with a year and a month in the 32-bit range survives the
      conversion to ordered values and back. */
  lemma PointerRoundTrip(p: HabitMonthRecordPointer)
    requires p.year.Some? && Int32Min <= p.year.value <= Int32Max
    requires p.month.Some? && Int32Min <= p.month.value <= Int32Max
    ensures ToModel(ToOrderedValues(p)) == Ok(p)
  {
    ParseIntOfIntToString(p.year.value);
    ParseIntOfIntToString(p.month.value);
  }

  /** A prefix-query pointer (null year) puts "" in the year slot, and that
      text does not convert back. */
  lemma NullYearDoesNotRoundTrip(p: HabitMonthRecordPointer)
    requires p.year.None?
    ensures ToOrderedValues(p)[1] == ""
    ensures ToModel(ToOrderedValues(p)) == Err(FormatError)
  {
  }
}
