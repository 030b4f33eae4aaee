# HabitTracker core in Dafny

A model of the back end of HabitTracker, a habit-tracking service. A user defines habits. For each habit and each calendar month, the service stores one *month record*. A month record holds the days of the month on which the habit was done, plus a version number. The store checks that version on every write: this is optimistic concurrency.

The model covers:

- **Mutation engine** (`Habits`). It marks and unmarks a done day with up to ten version-checked attempts.
  - It re-queries the record after each failed write.
  - When the last day is removed, it deletes the record instead of saving it empty.
  - It also deletes a habit together with all its month records.
  - `Habits.HabitRepository` is a class holding the two tables (definitions and month records) as maps.
  - Each retry loop is a method with a `for` loop that takes the `Policy` below, proved equal to a loop function for both policies. Properties are proved about that function: bounded writes, frame, stored or removed day, well-kept records, idempotence, mark-then-unmark and unmark-then-mark.
- **Chart series** (`ChartDataCreator`). It turns the records into a cumulative step series:
  - a zero point the day before the first done date,
  - plateau points before gaps,
  - a final point at today.
- **Date-range extractor** (`DoneDateExtractor`). It returns the done dates inside an inclusive window, sorted.
- **Containers** (`TimeRecords`, `YearContainers`, `MonthContainers`). They are nested add-if-absent containers of dates, with an intersection against month records. They are classes with `Repr` frames over `seq` fields.
- **Record helpers, key converters and definition entries** (`HabitMonthRecords`, `HabitMonthRecordPointerConverter`, `HabitPartitionKeyConverter`, `HabitDefinitions`), and the day adjacency and chart text of `DateTimeExtensions`.
- **Supporting modules:**
  - `Calendar`: the proleptic Gregorian calendar, the date order and the chronological sort.
  - `Digits`: `int.ToString`, zero-padded fields, and `int.Parse` of an optional '-' and decimal digits within the 32-bit range.
  - `Wrappers` and `Errors`: the `Option`, `Result` and `Outcome` types, and the exceptions the code throws, as values.
- **Older private helpers** (`HabitReports`). `HabitRepository` still contains private `GetChartData` and `GetDoneDatesInRange`. They are compared with the classes that replace them.

The store is a map. Every write is checked against the stored version:

- A null version means the record must not exist yet.
- A loaded version must still be the stored one.

Everything else the store does is a parameter of the model. At attempt `i`, `env(i)` says two things:

- what a concurrent request did to the record just before the write: nothing, deleted it, or overwrote it;
- whether the write fails for another reason.

"Today", the drawn GUID and the user id are parameters as well.

The retry loops are written twice, selected by a `Policy` parameter:

- `AsWritten`: as the code writes them.
- `Corrected`: with the two defects under "## Findings" repaired.

The class methods take the policy as a parameter: with `AsWritten` they run the loops as the code writes them, with `Corrected` the repaired ones.

The month guard at `Habits/DoneDateExtractor.cs:16` is a disjunction (`start <= monthEnd || end >= monthStart`) that admits almost every month. `DoneDateExtractor.MonthGuard` keeps it, and `DoneDateExtractor.InvalidDayOutsideWindowRaises` shows its effect.

## Model

| member | source | states |
|---|---|---|
| Calendar.DaysInMonth | HabitTracker/HabitTracker/src/HabitTracker/Habits/DoneDateExtractor.cs:15 | a month has 28 to 31 days; 29 exactly for February of a leap year, 28 exactly for February of a common year |
| Calendar.NextDay | HabitTracker/HabitTracker/src/HabitTracker/Habits/SupportModels/TimeRecord.cs:71 | `AddDays(1)` gives a valid date strictly after the given one |
| Calendar.PrevDay | HabitTracker/HabitTracker/src/HabitTracker/Habits/ChartDataCreator.cs:15 | `AddDays(-1)` gives a valid date strictly before the given one |
| Calendar.NextDayOfPrevDay | HabitTracker/HabitTracker/src/HabitTracker/Habits/ChartDataCreator.cs:15 | one day back then one forward returns to the same date |
| Calendar.NextDayIsImmediate | HabitTracker/HabitTracker/src/HabitTracker/Habits/SupportModels/TimeRecord.cs:71 | no valid date lies strictly between a date and its next day, so stepping by one day visits every date |
| Calendar.PrevDayIsImmediate | HabitTracker/HabitTracker/src/HabitTracker/Habits/ChartDataCreator.cs:23 | no valid date lies strictly between a date's previous day and the date |
| Calendar.PrevDayOfNextDay | HabitTracker/HabitTracker/src/HabitTracker/Habits/SupportModels/TimeRecord.cs:71 | one day forward then one back returns to the same date |
| Calendar.NextDayInjective | HabitTracker/HabitTracker/src/HabitTracker/Habits/Extensions/DateTimeExtensions.cs:7 | two valid dates with the same next day are equal |
| Calendar.AddDayBack | HabitTracker/HabitTracker/src/HabitTracker/Habits/Extensions/DateTimeExtensions.cs:7 | `b.AddDays(-1)` keeps the time of day and its date is the day before `b`'s date |
| Calendar.BeforeIsStrictTotalOrder | HabitTracker/HabitTracker/src/HabitTracker/Habits/ChartDataCreator.cs:45 | the (year, month, day) order is irreflexive, asymmetric, transitive and total |
| Calendar.SortedCons | HabitTracker/HabitTracker/src/HabitTracker/Habits/ChartDataCreator.cs:45 | a date no later than the head of a sorted list can go in front and the list stays sorted |
| Calendar.InsertSorted | HabitTracker/HabitTracker/src/HabitTracker/Habits/ChartDataCreator.cs:45 | inserting into a sorted list keeps it sorted; the head is the new date or the old head |
| Calendar.InsertSortedCounts | HabitTracker/HabitTracker/src/HabitTracker/Habits/ChartDataCreator.cs:45 | inserting adds exactly the one date and loses none (as a multiset) |
| Calendar.SortDates | HabitTracker/HabitTracker/src/HabitTracker/Habits/ChartDataCreator.cs:45 | the year-month-day ordering returns a sorted permutation of its input |
| Calendar.SortedUnique | HabitTracker/HabitTracker/src/HabitTracker/Habits/ChartDataCreator.cs:45 | two sorted permutations of the same dates are equal, so the ordering's result is determined |
| Calendar.DistinctDatesCountOnce | HabitTracker/HabitTracker/src/HabitTracker/Habits/ChartDataCreator.cs:45 | a list without repeated dates holds each date once as a multiset |
| Calendar.CountOnceDistinctDates | HabitTracker/HabitTracker/src/HabitTracker/Habits/ChartDataCreator.cs:45 | a list holding each date once as a multiset has no repeated date |
| Calendar.SortDatesOfDistinct | HabitTracker/HabitTracker/src/HabitTracker/Habits/ChartDataCreator.cs:45 | the year-month-day ordering of dates without repeats is strictly increasing |
| Calendar.SortDatesOfSorted | HabitTracker/HabitTracker/src/HabitTracker/Habits/DoneDateExtractor.cs:28 | ordering an already sorted list leaves it unchanged |
| DateTimeExtensions.IsTheDayBefore | HabitTracker/HabitTracker/src/HabitTracker/Habits/Extensions/DateTimeExtensions.cs:5-8 | `a.Date == b.AddDays(-1).Date`; its meaning is stated by the three lemmas below |
| DateTimeExtensions.IsTheDayBeforeMeansNextDay | HabitTracker/HabitTracker/src/HabitTracker/Habits/Extensions/DateTimeExtensions.cs:5-8 | `a.IsTheDayBefore(b)` holds iff `b`'s date is the calendar day after `a`'s, across month and year ends |
| DateTimeExtensions.IsTheDayBeforeIgnoresTimeOfDay | HabitTracker/HabitTracker/src/HabitTracker/Habits/Extensions/DateTimeExtensions.cs:7 | only the calendar dates decide adjacency, not the times of day |
| DateTimeExtensions.IsTheDayBeforeIrreflexiveAsymmetric | HabitTracker/HabitTracker/src/HabitTracker/Habits/Extensions/DateTimeExtensions.cs:5-8 | no date is the day before itself, and adjacency never holds both ways |
| DateTimeExtensions.ToChartString | HabitTracker/HabitTracker/src/HabitTracker/Habits/Extensions/DateTimeExtensions.cs:10-13 | "yyyy/MM/dd" in the invariant culture: ten characters, 4, 2 and 2 digits separated by '/' |
| DateTimeExtensions.ChartStringRoundTrip | HabitTracker/HabitTracker/src/HabitTracker/Habits/Extensions/DateTimeExtensions.cs:10-13 | reading the chart text back yields the date it was printed from |
| Digits.Fixed | HabitTracker/HabitTracker/src/HabitTracker/Habits/Extensions/DateTimeExtensions.cs:12 | a zero-padded field of the requested width made of digits only |
| Digits.ValueOfFixed | HabitTracker/HabitTracker/src/HabitTracker/Habits/Extensions/DateTimeExtensions.cs:12 | a number below 10^w is read back from its w-digit field |
| Digits.NumDigits | HabitTracker/HabitTracker/src/HabitTracker/DynamoDb/PropertyConverters/MultipleProperties/Implementations/HabitMonthRecordPointerConverter.cs:33-34 | the digit count of a number: it fits in that many digits and not in fewer |
| Digits.IntToString | HabitTracker/HabitTracker/src/HabitTracker/DynamoDb/PropertyConverters/MultipleProperties/Implementations/HabitMonthRecordPointerConverter.cs:33-34 | `int.ToString()` is non-empty and starts with '-' exactly for negative numbers |
| Digits.ParseInt | HabitTracker/HabitTracker/src/HabitTracker/DynamoDb/PropertyConverters/MultipleProperties/Implementations/HabitMonthRecordPointerConverter.cs:28 | `int.Parse` of an optional '-' and decimal digits: only 32-bit values are accepted, and the empty text is a format error |
| Digits.ParseDigits | HabitTracker/HabitTracker/src/HabitTracker/DynamoDb/PropertyConverters/MultipleProperties/Implementations/HabitMonthRecordPointerConverter.cs:28 | a plain digit string parses to its value when that is at most `int.MaxValue` |
| Digits.ParseNegatedDigits | HabitTracker/HabitTracker/src/HabitTracker/DynamoDb/PropertyConverters/MultipleProperties/Implementations/HabitMonthRecordPointerConverter.cs:28 | '-' then digits parses to the negated value when that is at least `int.MinValue` |
| Digits.ParseIntOfIntToString | HabitTracker/HabitTracker/src/HabitTracker/DynamoDb/PropertyConverters/MultipleProperties/Implementations/HabitMonthRecordPointerConverter.cs:28-35 | every 32-bit integer survives `ToString` then `int.Parse` |
| HabitDefinitions.Create | HabitTracker/HabitTracker/src/HabitTracker/DynamoDb/Models/HabitDefinitionEntry.cs:19-27 | the new entry has the given owner and name and the drawn GUID as its id |
| HabitDefinitions.CopyWithNewValues | HabitTracker/HabitTracker/src/HabitTracker/DynamoDb/Models/HabitDefinitionEntry.cs:29-37 | the copy keeps the owner and takes id and name from the request |
| HabitDefinitions.Convert | HabitTracker/HabitTracker/src/HabitTracker/DynamoDb/Models/HabitDefinitionEntry.cs:39-46 | the public definition carries id and name unchanged and drops the owner |
| HabitDefinitions.CopyWithSameIdIsRename | HabitTracker/HabitTracker/src/HabitTracker/DynamoDb/Models/HabitDefinitionEntry.cs:29-37 | a copy under the entry's own id differs from it in the name only |
| HabitDefinitions.ConvertAfterCopy | HabitTracker/HabitTracker/src/HabitTracker/DynamoDb/Models/HabitDefinitionEntry.cs:29-46 | the public view of an updated entry is exactly the requested id and name |
| HabitMonthRecords.CreatePartitionKey | HabitTracker/HabitTracker/src/HabitTracker/DynamoDb/Models/HabitMonthRecordEntry.cs:21-28 | the key has the given user id and item type "HabitMonthRecordEntry" |
| HabitMonthRecords.DefaultEntry | HabitTracker/HabitTracker/src/HabitTracker/DynamoDb/Models/HabitMonthRecordEntry.cs:10-19 | the field defaults: empty partition key, no dates, null version |
| HabitMonthRecords.DefaultEntryIsEmpty | HabitTracker/HabitTracker/src/HabitTracker/DynamoDb/Models/HabitMonthRecordEntry.cs:16-19 | a fresh entry contains no date |
| HabitMonthRecords.GetYearMonth | HabitTracker/HabitTracker/src/HabitTracker/DynamoDb/Models/HabitMonthRecordEntry.cs:35-42 | returns the pointer's (year, month) iff both are set; a null year fails first, then a null month |
| HabitMonthRecords.ExpandDays | HabitTracker/HabitTracker/src/HabitTracker/Habits/ChartDataCreator.cs:42 | each day becomes the date of that year and month, in order; the first impossible day fails with an error naming it |
| HabitMonthRecords.ContainsDate | HabitTracker/HabitTracker/src/HabitTracker/DynamoDb/Models/HabitMonthRecordEntry.cs:30-33 | year and month equal the pointer's (a null one compares unequal) and the day is in `Dates`; `ContainsDateMatchesRecordDates` relates it to the record's dates |
| HabitMonthRecords.AllTimeDoneCount | HabitTracker/HabitTracker/src/HabitTracker/Habits/HabitRepository.cs:225 | the sum of the records' day counts; `AllDoneDates` returns exactly that many dates |
| HabitMonthRecords.ContainsDateMatchesRecordDates | HabitTracker/HabitTracker/src/HabitTracker/DynamoDb/Models/HabitMonthRecordEntry.cs:30-33 | `ContainsDate(d)` holds iff `d` is among the record's dates (year and month match the pointer, day in `Dates`) |
| HabitMonthRecords.AllDoneDates | HabitTracker/HabitTracker/src/HabitTracker/Habits/ChartDataCreator.cs:38-44 | every record's dates collected: one date per stored day (the all-time count), all valid |
| HabitMonthRecords.AllDoneDatesMembers | HabitTracker/HabitTracker/src/HabitTracker/Habits/ChartDataCreator.cs:38-44 | a date is collected iff some record contains it |
| HabitMonthRecords.AllDoneDatesErrorPersists | HabitTracker/HabitTracker/src/HabitTracker/Habits/ChartDataCreator.cs:39-44 | the first failing record's error is the error of the whole collection |
| HabitMonthRecords.AllDoneDatesDistinct | HabitTracker/HabitTracker/src/HabitTracker/Habits/ChartDataCreator.cs:38-44 | records without a repeated day and without two records of one (year, month) give no date twice |
| HabitMonthRecordPointerConverter.PropertyDefinitionList | HabitTracker/HabitTracker/src/HabitTracker/DynamoDb/PropertyConverters/MultipleProperties/Implementations/HabitMonthRecordPointerConverter.cs:7-24 | three properties are declared |
| HabitMonthRecordPointerConverter.NullableToString | HabitTracker/HabitTracker/src/HabitTracker/DynamoDb/PropertyConverters/MultipleProperties/Implementations/HabitMonthRecordPointerConverter.cs:33-34 | a nullable number prints as "" exactly when it is null |
| HabitMonthRecordPointerConverter.ToOrderedValues | HabitTracker/HabitTracker/src/HabitTracker/DynamoDb/PropertyConverters/MultipleProperties/Implementations/HabitMonthRecordPointerConverter.cs:31-36 | three values, the habit id first |
| HabitMonthRecordPointerConverter.ToModel | HabitTracker/HabitTracker/src/HabitTracker/DynamoDb/PropertyConverters/MultipleProperties/Implementations/HabitMonthRecordPointerConverter.cs:26-29 | index 0 is the habit id and indexes 1 and 2 parse as year and month; fewer than two values fail with an index error |
| HabitMonthRecordPointerConverter.OrderedValuesFollowPropertyDefinitions | HabitTracker/HabitTracker/src/HabitTracker/DynamoDb/PropertyConverters/MultipleProperties/Implementations/HabitMonthRecordPointerConverter.cs:7-36 | the i-th value is the text of the i-th declared property (HabitId, Year, Month) |
| HabitMonthRecordPointerConverter.PointerRoundTrip | HabitTracker/HabitTracker/src/HabitTracker/DynamoDb/PropertyConverters/MultipleProperties/Implementations/HabitMonthRecordPointerConverter.cs:26-36 | a pointer with a 32-bit year and month converts to values and back unchanged |
| HabitMonthRecordPointerConverter.NullYearDoesNotRoundTrip | HabitTracker/HabitTracker/src/HabitTracker/DynamoDb/PropertyConverters/MultipleProperties/Implementations/HabitMonthRecordPointerConverter.cs:33-35 | a null year becomes "" and that value does not parse back |
| HabitPartitionKeyConverter.PropertyDefinitionList | HabitTracker/HabitTracker/src/HabitTracker/DynamoDb/PropertyConverters/MultipleProperties/Implementations/HabitPartitionKeyConverter.cs:7-19 | two properties are declared |
| HabitPartitionKeyConverter.ToOrderedValues | HabitTracker/HabitTracker/src/HabitTracker/DynamoDb/PropertyConverters/MultipleProperties/Implementations/HabitPartitionKeyConverter.cs:30-33 | two values |
| HabitPartitionKeyConverter.ToModel | HabitTracker/HabitTracker/src/HabitTracker/DynamoDb/PropertyConverters/MultipleProperties/Implementations/HabitPartitionKeyConverter.cs:21-28 | succeeds iff there are at least two values, otherwise an index error |
| HabitPartitionKeyConverter.OrderedValuesFollowPropertyDefinitions | HabitTracker/HabitTracker/src/HabitTracker/DynamoDb/PropertyConverters/MultipleProperties/Implementations/HabitPartitionKeyConverter.cs:7-33 | the i-th value is the text of the i-th declared property (UserId, Type) |
| HabitPartitionKeyConverter.PartitionKeyRoundTrip | HabitTracker/HabitTracker/src/HabitTracker/DynamoDb/PropertyConverters/MultipleProperties/Implementations/HabitPartitionKeyConverter.cs:21-33 | key to values to key is the identity |
| HabitPartitionKeyConverter.OrderedValuesRoundTrip | HabitTracker/HabitTracker/src/HabitTracker/DynamoDb/PropertyConverters/MultipleProperties/Implementations/HabitPartitionKeyConverter.cs:21-33 | values to key to values is the identity on two-element lists |
| MonthContainers.AddDay | HabitTracker/HabitTracker/src/HabitTracker/Habits/SupportModels/MonthContainer.cs:14-19 | `Days` after `AddIfNotIncluded(day)`; its contents are stated by the lemmas below |
| MonthContainers.AddDayContents | HabitTracker/HabitTracker/src/HabitTracker/Habits/SupportModels/MonthContainer.cs:14-19 | after adding, the day is present, earlier days keep their places, and nothing else is added |
| MonthContainers.AddDayAppendsOnlyAbsent | HabitTracker/HabitTracker/src/HabitTracker/Habits/SupportModels/MonthContainer.cs:16-18 | a present day changes nothing; an absent one is appended at the end |
| MonthContainers.AddDayIdempotent | HabitTracker/HabitTracker/src/HabitTracker/Habits/SupportModels/MonthContainer.cs:14-19 | adding a day twice is adding it once |
| MonthContainers.AddDayKeepsNoDuplicates | HabitTracker/HabitTracker/src/HabitTracker/Habits/SupportModels/MonthContainer.cs:14-19 | a day list without duplicates stays without duplicates |
| MonthContainers.MonthContainer.constructor | HabitTracker/HabitTracker/src/HabitTracker/Habits/SupportModels/MonthContainer.cs:8-12 | the container has the given month and exactly the given day |
| MonthContainers.MonthContainer.AddIfNotIncluded | HabitTracker/HabitTracker/src/HabitTracker/Habits/SupportModels/MonthContainer.cs:14-19 | `Days` becomes the list with the day added if absent, and stays free of duplicates |
| YearContainers.FindMonth | HabitTracker/HabitTracker/src/HabitTracker/Habits/SupportModels/YearContainer.cs:28-40 | finds the first container of the month, or reports that none has it |
| YearContainers.AddToYear | HabitTracker/HabitTracker/src/HabitTracker/Habits/SupportModels/YearContainer.cs:16-26 | the month containers after `AddIfNotIncluded(month, day)`: the found month gets the day, else a new container is appended; stated by the lemmas below |
| YearContainers.AddToYearKeepsMonthsUnique | HabitTracker/HabitTracker/src/HabitTracker/Habits/SupportModels/YearContainer.cs:16-26 | adding never creates a second container for a month |
| YearContainers.AddToYearContents | HabitTracker/HabitTracker/src/HabitTracker/Habits/SupportModels/YearContainer.cs:16-26 | afterwards the year holds (month, day) and exactly what it held before besides |
| YearContainers.AddToYearOtherMonths | HabitTracker/HabitTracker/src/HabitTracker/Habits/SupportModels/YearContainer.cs:18-25 | other months' containers are left as they were |
| YearContainers.YearContainer.constructor | HabitTracker/HabitTracker/src/HabitTracker/Habits/SupportModels/YearContainer.cs:10-14 | the year of the date with one month container holding the date's day |
| YearContainers.YearContainer.TryGetMonthContainer | HabitTracker/HabitTracker/src/HabitTracker/Habits/SupportModels/YearContainer.cs:28-40 | true with the first container of the month, or false with a new sentinel of month 0 holding day 0 |
| YearContainers.YearContainer.AddIfNotIncluded | HabitTracker/HabitTracker/src/HabitTracker/Habits/SupportModels/YearContainer.cs:16-26 | the year's months become `AddToYear` of the old ones, one container per month kept |
| TimeRecords.FindYear | HabitTracker/HabitTracker/src/HabitTracker/Habits/SupportModels/TimeRecord.cs:54-66 | finds the first container of the year, or reports that none has it |
| TimeRecords.AddToRecord | HabitTracker/HabitTracker/src/HabitTracker/Habits/SupportModels/TimeRecord.cs:43-52 | the year containers after `AddIfNotIncluded(date)`: the found year gets the date, else a new year container is appended; stated by the lemmas below |
| TimeRecords.AddAll | HabitTracker/HabitTracker/src/HabitTracker/Habits/SupportModels/TimeRecord.cs:14 | `ForEach(AddIfNotIncluded)` over the dates in order; `AddAllContents` states what it holds |
| TimeRecords.DatesFrom | HabitTracker/HabitTracker/src/HabitTracker/Habits/SupportModels/TimeRecord.cs:68-76 | the dates the `for` loop visits from a start, stepping one day, while not after the end; `DatesFromMembers` states which |
| TimeRecords.IntersectingDates | HabitTracker/HabitTracker/src/HabitTracker/Habits/SupportModels/TimeRecord.cs:29-41 | the single-entry overload: null-field errors, empty for an absent year or month, else the intersected days as dates; `IntersectingDatesMembers` states which |
| TimeRecords.AllIntersectingDates | HabitTracker/HabitTracker/src/HabitTracker/Habits/SupportModels/TimeRecord.cs:18-27 | the list overload: the per-entry results concatenated in input order, or the first error |
| TimeRecords.AddToRecordKeepsWellFormed | HabitTracker/HabitTracker/src/HabitTracker/Habits/SupportModels/TimeRecord.cs:43-52 | adding keeps one container per year and per month |
| TimeRecords.AddToRecordContents | HabitTracker/HabitTracker/src/HabitTracker/Habits/SupportModels/TimeRecord.cs:43-52 | after adding, the record holds exactly the dates it held and the new one |
| TimeRecords.AddAllContents | HabitTracker/HabitTracker/src/HabitTracker/Habits/SupportModels/TimeRecord.cs:14 | adding a list of dates one by one holds exactly the old dates and the list's |
| TimeRecords.AddAllKeepsWellFormed | HabitTracker/HabitTracker/src/HabitTracker/Habits/SupportModels/TimeRecord.cs:14 | adding a list of dates keeps one container per year and per month |
| TimeRecords.DatesFromMembers | HabitTracker/HabitTracker/src/HabitTracker/Habits/SupportModels/TimeRecord.cs:68-76 | the stepped dates are exactly the valid dates from the start whose time, at the start's time of day, is not after the end |
| TimeRecords.DatesFromStrictlyIncreasing | HabitTracker/HabitTracker/src/HabitTracker/Habits/SupportModels/TimeRecord.cs:68-76 | the stepped dates are strictly increasing |
| TimeRecords.Intersect | HabitTracker/HabitTracker/src/HabitTracker/Habits/SupportModels/TimeRecord.cs:37 | `Intersect` keeps the distinct days present in both lists |
| TimeRecords.DatesOf | HabitTracker/HabitTracker/src/HabitTracker/Habits/SupportModels/TimeRecord.cs:38 | each day becomes the date of that year and month, in order |
| TimeRecords.IntersectingDatesMembers | HabitTracker/HabitTracker/src/HabitTracker/Habits/SupportModels/TimeRecord.cs:29-41 | a date is returned iff it is in the entry's month, is an entry day and is held by the record |
| TimeRecords.AllIntersectingErrorPersists | HabitTracker/HabitTracker/src/HabitTracker/Habits/SupportModels/TimeRecord.cs:18-27 | the first entry with a null year or month decides the error of the list overload |
| TimeRecords.TimeRecord.ValidIsWellFormed | HabitTracker/HabitTracker/src/HabitTracker/Habits/SupportModels/TimeRecord.cs:43-52 | a valid record has one container per year and per month |
| TimeRecords.TimeRecord.constructor | HabitTracker/HabitTracker/src/HabitTracker/Habits/SupportModels/TimeRecord.cs:8 | a new record holds no year |
| TimeRecords.TimeRecord.TryGetYearContainer | HabitTracker/HabitTracker/src/HabitTracker/Habits/SupportModels/TimeRecord.cs:54-66 | true with the first container of the year, or false with a new sentinel of year 0 |
| TimeRecords.TimeRecord.AddIfNotIncluded | HabitTracker/HabitTracker/src/HabitTracker/Habits/SupportModels/TimeRecord.cs:43-52 | the record's years become `AddToRecord` of the old ones, and it stays valid |
| TimeRecords.TimeRecord.AddToExistingYear | HabitTracker/HabitTracker/src/HabitTracker/Habits/SupportModels/TimeRecord.cs:45-47 | the found year container gets the date; the other years are untouched |
| TimeRecords.TimeRecord.AddNewYear | HabitTracker/HabitTracker/src/HabitTracker/Habits/SupportModels/TimeRecord.cs:48-51 | a year without container gets a new container holding just the date, appended after the others |
| TimeRecords.TimeRecord.GetIntersectingDatesOf | HabitTracker/HabitTracker/src/HabitTracker/Habits/SupportModels/TimeRecord.cs:29-41 | returns `IntersectingDates`: null-field errors, empty for an absent year or month, else the intersection |
| TimeRecords.TimeRecord.GetIntersectingDates | HabitTracker/HabitTracker/src/HabitTracker/Habits/SupportModels/TimeRecord.cs:18-27 | the per-entry results concatenated in input order, or the first error |
| TimeRecords.GetDatesBetween | HabitTracker/HabitTracker/src/HabitTracker/Habits/SupportModels/TimeRecord.cs:68-76 | the dates from start stepping one day while not after end |
| TimeRecords.CreateWithDatesBetween | HabitTracker/HabitTracker/src/HabitTracker/Habits/SupportModels/TimeRecord.cs:10-16 | a new valid record built by adding every date of the range |
| TimeRecords.CreatedRecordHoldsRange | HabitTracker/HabitTracker/src/HabitTracker/Habits/SupportModels/TimeRecord.cs:10-16 | the built record holds exactly the dates from start to end (none when start is after end), one container per year and month |
| ChartDataCreator.Follows | HabitTracker/HabitTracker/src/HabitTracker/Habits/ChartDataCreator.cs:21 | `IsTheDayBefore` of two dates at midnight; `FollowsIsPrevDay` states its meaning |
| ChartDataCreator.ChartOf | HabitTracker/HabitTracker/src/HabitTracker/Habits/ChartDataCreator.cs:15-33 | zero point, step series and final point at today for sorted done dates; stated by the Chart lemmas below |
| ChartDataCreator.CreateSpec | HabitTracker/HabitTracker/src/HabitTracker/Habits/ChartDataCreator.cs:9-34 | what `Create` returns: empty for no records, the first record error, an index error when no record holds a day, else `ChartOf` of the sorted dates |
| ChartDataCreator.WithZeroPoint | HabitTracker/HabitTracker/src/HabitTracker/Habits/ChartDataCreator.cs:15-16 | the day before the first date is inserted in front |
| ChartDataCreator.Series | HabitTracker/HabitTracker/src/HabitTracker/Habits/ChartDataCreator.cs:17-28 | the walk keeps dates and values the same length, at least one point per date |
| ChartDataCreator.SortKeepsValidity | HabitTracker/HabitTracker/src/HabitTracker/Habits/ChartDataCreator.cs:45 | sorting keeps every date valid and the length |
| ChartDataCreator.CreateSpecOfSorted | HabitTracker/HabitTracker/src/HabitTracker/Habits/ChartDataCreator.cs:14-17 | with at least one done date, the chart is built from the sorted dates |
| ChartDataCreator.GetDatesInChronologicalOrder | HabitTracker/HabitTracker/src/HabitTracker/Habits/ChartDataCreator.cs:36-47 | every record's dates, sorted, or the first failing record's error |
| ChartDataCreator.WalkDates | HabitTracker/HabitTracker/src/HabitTracker/Habits/ChartDataCreator.cs:17-28 | the loop emits exactly the specified series, and its running count ends at the number of done dates |
| ChartDataCreator.Create | HabitTracker/HabitTracker/src/HabitTracker/Habits/ChartDataCreator.cs:9-34 | returns the specified chart: empty for no records, an index error when records hold no day, else the step series |
| ChartDataCreator.FollowsIsPrevDay | HabitTracker/HabitTracker/src/HabitTracker/Habits/ChartDataCreator.cs:21 | `IsTheDayBefore` on dates holds exactly when the previous date is `PrevDay` of this one, so the series and the loop test gaps alike |
| ChartDataCreator.SeriesShape | HabitTracker/HabitTracker/src/HabitTracker/Habits/ChartDataCreator.cs:17-28 | zero point first with value 0; n-th date last with value n-1; between n and 2n-1 points |
| ChartDataCreator.SeriesValues | HabitTracker/HabitTracker/src/HabitTracker/Habits/ChartDataCreator.cs:17-28 | the running counts stay within 0..n-1 and never decrease |
| ChartDataCreator.SeriesStep | HabitTracker/HabitTracker/src/HabitTracker/Habits/ChartDataCreator.cs:19-28 | one more date adds points and keeps every earlier point |
| ChartDataCreator.SeriesPointExtend | HabitTracker/HabitTracker/src/HabitTracker/Habits/ChartDataCreator.cs:19-28 | a point kept up to step n-1 is still in place after step n |
| ChartDataCreator.SeriesPrefix | HabitTracker/HabitTracker/src/HabitTracker/Habits/ChartDataCreator.cs:19-28 | walking further only appends points |
| ChartDataCreator.SeriesPointStable | HabitTracker/HabitTracker/src/HabitTracker/Habits/ChartDataCreator.cs:19-28 | a point once emitted keeps its date and value |
| ChartDataCreator.SeriesLastTwo | HabitTracker/HabitTracker/src/HabitTracker/Habits/ChartDataCreator.cs:21-27 | after date k, the point before it holds k-1 and is the previous date if that is the day before, else a plateau point on the day before |
| ChartDataCreator.SeriesPointBefore | HabitTracker/HabitTracker/src/HabitTracker/Habits/ChartDataCreator.cs:21-27 | that point before the k-th date's point keeps its date and value k-1 for the rest of the walk |
| ChartDataCreator.SeriesPointOf | HabitTracker/HabitTracker/src/HabitTracker/Habits/ChartDataCreator.cs:19-28 | returns the index of the k-th date's point: the last one once that date is walked, with value k for the rest of the walk |
| ChartDataCreator.SeriesStrictlyIncreasing | HabitTracker/HabitTracker/src/HabitTracker/Habits/ChartDataCreator.cs:19-28 | strictly increasing dates give strictly increasing point dates |
| ChartDataCreator.StepDates | HabitTracker/HabitTracker/src/HabitTracker/Habits/ChartDataCreator.cs:21-27 | one step adds one or two dates ending with the date; one exactly when the previous date is the day before |
| ChartDataCreator.SeriesDatesStep | HabitTracker/HabitTracker/src/HabitTracker/Habits/ChartDataCreator.cs:19-28 | walking one more date appends exactly that step's dates |
| ChartDataCreator.StepDatesIncrease | HabitTracker/HabitTracker/src/HabitTracker/Habits/ChartDataCreator.cs:21-27 | for a later date, the step's dates increase strictly and follow the previous date |
| ChartDataCreator.JoinStrictlyIncreasing | HabitTracker/HabitTracker/src/HabitTracker/Habits/ChartDataCreator.cs:45 | two strictly increasing lists, the first ending before the second starts, join into one |
| ChartDataCreator.SeriesStepIncreasing | HabitTracker/HabitTracker/src/HabitTracker/Habits/ChartDataCreator.cs:19-28 | one step keeps the point dates strictly increasing when the date is later than the previous one |
| ChartDataCreator.SeriesOfConsecutiveDays | HabitTracker/HabitTracker/src/HabitTracker/Habits/ChartDataCreator.cs:19-28 | consecutive days give no plateau point and values 0, 1, ... |
| ChartDataCreator.ChartStartsAtZero | HabitTracker/HabitTracker/src/HabitTracker/Habits/ChartDataCreator.cs:15-17 | the first point is the day before the first done date with value 0, then the first done date with value 1 |
| ChartDataCreator.ChartEndsToday | HabitTracker/HabitTracker/src/HabitTracker/Habits/ChartDataCreator.cs:29-32 | the last point is today with the total count; N dates give between N+1 and 2N+1 points |
| ChartDataCreator.SeriesTailBound | HabitTracker/HabitTracker/src/HabitTracker/Habits/ChartDataCreator.cs:19-28 | after the first date, each date adds one or two points |
| ChartDataCreator.ChartValuesNonDecreasing | HabitTracker/HabitTracker/src/HabitTracker/Habits/ChartDataCreator.cs:18-28 | values never decrease and stay within 0..N |
| ChartDataCreator.ChartPointOfDate | HabitTracker/HabitTracker/src/HabitTracker/Habits/ChartDataCreator.cs:19-28 | the k-th done date carries value k+1; a gap before it is marked by a plateau point on its day before holding k |
| ChartDataCreator.ChartShowsEveryDate | HabitTracker/HabitTracker/src/HabitTracker/Habits/ChartDataCreator.cs:19-28 | every done date appears among the chart's dates |
| ChartDataCreator.ChartStrictlyIncreasing | HabitTracker/HabitTracker/src/HabitTracker/Habits/ChartDataCreator.cs:14-33 | distinct done dates, none after today, give strictly increasing chart dates |
| ChartDataCreator.CreateOfKeptApartStrictlyIncreasing | HabitTracker/HabitTracker/src/HabitTracker/Habits/ChartDataCreator.cs:9-34 | records without a repeated day or a repeated (year, month), with every date no later than today, chart with strictly increasing dates |
| ChartDataCreator.ChartOfStreakEndingToday | HabitTracker/HabitTracker/src/HabitTracker/Habits/ChartDataCreator.cs:15-28 | a streak ending today charts as the zero point then each day with values 1..N |
| ChartDataCreator.ChartWithGap | HabitTracker/HabitTracker/src/HabitTracker/Habits/ChartDataCreator.cs:21-27 | days N and N+7 (today) give (N-1,0), (N,1), (N+6,1), (N+7,2) |
| ChartDataCreator.ChartOfOldDate | HabitTracker/HabitTracker/src/HabitTracker/Habits/ChartDataCreator.cs:29-32 | a last date before today gets a final point at today repeating the count |
| ChartDataCreator.CreateOfRecordsWithoutDays | HabitTracker/HabitTracker/src/HabitTracker/Habits/ChartDataCreator.cs:12-15 | records that exist but hold no day fail at the first date, since the guard counts records |
| ChartDataCreator.CreateEndsWithAllTimeCount | HabitTracker/HabitTracker/src/HabitTracker/Habits/ChartDataCreator.cs:9-34 | a successful chart ends at today with the all-time done count and shows every done date |
| DoneDateExtractor.InWindow | HabitTracker/HabitTracker/src/HabitTracker/Habits/DoneDateExtractor.cs:21 | `start <= date && date <= end` with the date at midnight |
| DoneDateExtractor.MonthGuard | HabitTracker/HabitTracker/src/HabitTracker/Habits/DoneDateExtractor.cs:14-16 | the month guard as written, a disjunction `start <= monthEnd || end >= monthStart`; `RejectedMonthOutsideWindow` and `InvalidDayOutsideWindowRaises` state its effect |
| DoneDateExtractor.DoneDatesInRange | HabitTracker/HabitTracker/src/HabitTracker/Habits/DoneDateExtractor.cs:8-29 | what `GetDoneDatesInRange` returns: the collected dates sorted, or the first error; `DoneDatesInRangeSound` and `DoneDatesInRangeComplete` state its meaning |
| DoneDateExtractor.DaysInWindow | HabitTracker/HabitTracker/src/HabitTracker/Habits/DoneDateExtractor.cs:18-25 | keeps the valid in-window dates of one record in order; fails iff some day is not a day of the month |
| DoneDateExtractor.EntryDatesInWindow | HabitTracker/HabitTracker/src/HabitTracker/Habits/DoneDateExtractor.cs:13-26 | every date one record contributes is valid and inside the window |
| DoneDateExtractor.CollectInWindow | HabitTracker/HabitTracker/src/HabitTracker/Habits/DoneDateExtractor.cs:11-27 | every collected date is valid and inside the window |
| DoneDateExtractor.DaysInWindowErrorPersists | HabitTracker/HabitTracker/src/HabitTracker/Habits/DoneDateExtractor.cs:18-25 | the first impossible day decides the error of the record |
| DoneDateExtractor.CollectErrorPersists | HabitTracker/HabitTracker/src/HabitTracker/Habits/DoneDateExtractor.cs:11-27 | the first failing record decides the error of the whole call |
| DoneDateExtractor.GetDoneDatesInRange | HabitTracker/HabitTracker/src/HabitTracker/Habits/DoneDateExtractor.cs:8-29 | returns the collected in-window dates sorted, or the first error |
| DoneDateExtractor.DoneDatesInRangeSound | HabitTracker/HabitTracker/src/HabitTracker/Habits/DoneDateExtractor.cs:20-28 | every returned date is a valid date in [start, end], and the list is sorted |
| DoneDateExtractor.DoneDatesInRangeStrictlyIncreasing | HabitTracker/HabitTracker/src/HabitTracker/Habits/DoneDateExtractor.cs:8-29 | records without a repeated day or a repeated (year, month), every year and month set, give the in-window dates in strictly increasing order |
| DoneDateExtractor.WindowFilterKeepsDistinct | HabitTracker/HabitTracker/src/HabitTracker/Habits/DoneDateExtractor.cs:21 | filtering a list without repeated dates repeats none |
| DoneDateExtractor.NoRecordsNoDates | HabitTracker/HabitTracker/src/HabitTracker/Habits/DoneDateExtractor.cs:10-11 | no records give no dates |
| DoneDateExtractor.WindowFilter | HabitTracker/HabitTracker/src/HabitTracker/Habits/DoneDateExtractor.cs:21 | the dates of a list inside the window, in list order |
| DoneDateExtractor.DaysInWindowIsFilter | HabitTracker/HabitTracker/src/HabitTracker/Habits/DoneDateExtractor.cs:18-25 | with all days valid, one record contributes exactly its in-window dates |
| DoneDateExtractor.RejectedMonthOutsideWindow | HabitTracker/HabitTracker/src/HabitTracker/Habits/DoneDateExtractor.cs:14-16 | a month the guard rejects has no date in the window |
| DoneDateExtractor.DoneDatesInRangeComplete | HabitTracker/HabitTracker/src/HabitTracker/Habits/DoneDateExtractor.cs:8-29 | the result equals filtering all done dates by the window and sorting, duplicates kept, whatever the guard |
| DoneDateExtractor.CollectIsFilter | HabitTracker/HabitTracker/src/HabitTracker/Habits/DoneDateExtractor.cs:11-27 | the collected dates are the window filter of all done dates |
| DoneDateExtractor.DaysInWindowAppend | HabitTracker/HabitTracker/src/HabitTracker/Habits/DoneDateExtractor.cs:18-25 | one more day is appended iff its date is in the window |
| DoneDateExtractor.CollectAppend | HabitTracker/HabitTracker/src/HabitTracker/Habits/DoneDateExtractor.cs:11-27 | one more record appends its contribution |
| DoneDateExtractor.JanuaryWindow | HabitTracker/HabitTracker/src/HabitTracker/Habits/DoneDateExtractor.cs:8-29 | days 1, 15, 31 of January within all of January are returned in order |
| DoneDateExtractor.NeighbouringMonthsExcluded | HabitTracker/HabitTracker/src/HabitTracker/Habits/DoneDateExtractor.cs:16-21 | December and February days are left out of a January window |
| DoneDateExtractor.InvalidDayOutsideWindowRaises | HabitTracker/HabitTracker/src/HabitTracker/Habits/DoneDateExtractor.cs:16-20 | the guard admits a month far outside the window, so an impossible day in it raises |
| HabitReports.LegacyChartData | HabitTracker/HabitTracker/src/HabitTracker/Habits/HabitRepository.cs:163-186 | the private `GetChartData`: `Create` without its empty guard; stated by the two lemmas below |
| HabitReports.LegacyEntryDates | HabitTracker/HabitTracker/src/HabitTracker/Habits/HabitRepository.cs:238-245 | one record's contribution: behind the same month guard, the days between the window's first and last day of the month |
| HabitReports.LegacyCollect | HabitTracker/HabitTracker/src/HabitTracker/Habits/HabitRepository.cs:236-246 | the records' contributions in order, or the first error |
| HabitReports.LegacyDoneDatesInRange | HabitTracker/HabitTracker/src/HabitTracker/Habits/HabitRepository.cs:233-248 | the private `GetDoneDatesInRange`: the collected dates sorted; `LegacyDaysBetweenDaysOfMonth` and `LegacyLosesDaysAcrossMonthEnd` state its meaning |
| HabitReports.DaysBetweenDaysOfMonth | HabitTracker/HabitTracker/src/HabitTracker/Habits/HabitRepository.cs:243 | keeps the days between the window's first and last day of the month, and every such day |
| HabitReports.LegacyChartAgreesOnRecords | HabitTracker/HabitTracker/src/HabitTracker/Habits/HabitRepository.cs:163-186 | on a non-empty record list the private helper builds the same chart as `ChartDataCreator.Create` |
| HabitReports.LegacyChartFailsWithoutRecords | HabitTracker/HabitTracker/src/HabitTracker/Habits/HabitRepository.cs:165-167 | on no records the helper fails reading `dates[0]`, while `ChartDataCreator.Create` returns the empty chart |
| HabitReports.LegacyDaysBetweenDaysOfMonth | HabitTracker/HabitTracker/src/HabitTracker/Habits/HabitRepository.cs:233-248 | every date the helper returns has its day of month within the window's days of month, whatever its month |
| HabitReports.LegacyLosesDaysAcrossMonthEnd | HabitTracker/HabitTracker/src/HabitTracker/Habits/HabitRepository.cs:241-243 | 29 Jan to 4 Feb 2024 with 30 Jan and 2 Feb done: the helper returns nothing, the extractor both dates |
| Habits.VersionMatches | HabitTracker/HabitTracker/src/HabitTracker/Habits/HabitRepository.cs:87 | the store's version check: a null version requires no stored record, a loaded one the stored version |
| Habits.Save | HabitTracker/HabitTracker/src/HabitTracker/Habits/HabitRepository.cs:87 | `SaveAsync`: the record stored with the next version, or a failure on a transient error or a version mismatch |
| Habits.Delete | HabitTracker/HabitTracker/src/HabitTracker/Habits/HabitRepository.cs:118 | `DeleteAsync`: the record removed, or a failure on a transient error or a version mismatch |
| Habits.RemoveFirst | HabitTracker/HabitTracker/src/HabitTracker/Habits/HabitRepository.cs:109 | `Dates.Remove(day)` leaves the list unchanged when absent and one shorter when present |
| Habits.RemoveFirstCounts | HabitTracker/HabitTracker/src/HabitTracker/Habits/HabitRepository.cs:109 | exactly one occurrence of the day is removed |
| Habits.RemoveFirstFromDistinct | HabitTracker/HabitTracker/src/HabitTracker/Habits/HabitRepository.cs:109 | from a list without duplicates, the day is gone, the other days stay, and no duplicate appears |
| Habits.RemoveFirstUndoesAppend | HabitTracker/HabitTracker/src/HabitTracker/Habits/HabitRepository.cs:109 | `Remove(day)` undoes `Add(day)` of an absent day |
| Habits.WriteBack | HabitTracker/HabitTracker/src/HabitTracker/Habits/HabitRepository.cs:112-119 | saves a non-empty list, deletes the record when the list is empty, touches no other key; fails iff the write fails or the version does not match |
| Habits.AfterFailedAdd | HabitTracker/HabitTracker/src/HabitTracker/Habits/HabitRepository.cs:89-97 | the entry after a failed save: the re-queried record; when it is gone, the code keeps the added day with a null version, the corrected loop starts from no days |
| Habits.AddDayStep | HabitTracker/HabitTracker/src/HabitTracker/Habits/HabitRepository.cs:84-97 | one attempt changes no record but its own, and a retry keeps the same key |
| Habits.AfterWrite | HabitTracker/HabitTracker/src/HabitTracker/Habits/HabitRepository.cs:112-119 | the entry after a successful write: a save gives it the next version |
| Habits.RemoveDayStep | HabitTracker/HabitTracker/src/HabitTracker/Habits/HabitRepository.cs:107-127 | one remove attempt; the code goes on to the next attempt after a successful write, the corrected loop finishes there; stated by the RemoveDayStep lemmas below |
| Habits.AddDayLoop | HabitTracker/HabitTracker/src/HabitTracker/Habits/HabitRepository.cs:78-101 | `AddDayToRecord` from attempt i on, for either policy; stated by the AddDay lemmas below |
| Habits.RemoveDayLoop | HabitTracker/HabitTracker/src/HabitTracker/Habits/HabitRepository.cs:103-130 | `RemoveDayFromRecord` from attempt i on, for either policy; stated by the RemoveDay lemmas below |
| Habits.AddDayStepFinishesOnlyOnSave | HabitTracker/HabitTracker/src/HabitTracker/Habits/HabitRepository.cs:84-88 | an attempt finishes only by saving the entry's days plus the day |
| Habits.AddDayStepReflects | HabitTracker/HabitTracker/src/HabitTracker/Habits/HabitRepository.cs:89-97 | after a failed save the corrected loop's entry is what a query returns now, or empty with a null version when the record is gone |
| Habits.AddDayStepKeepsWellKept | HabitTracker/HabitTracker/src/HabitTracker/Habits/HabitRepository.cs:84-97 | an attempt stores only non-empty, duplicate-free day lists |
| Habits.RemoveDayStepKey | HabitTracker/HabitTracker/src/HabitTracker/Habits/HabitRepository.cs:121-126 | a remove retries with an entry for the same key |
| Habits.RemoveDayStepFrame | HabitTracker/HabitTracker/src/HabitTracker/Habits/HabitRepository.cs:109-126 | one remove attempt changes no record but its own |
| Habits.RemoveDayStepKeepsWellKept | HabitTracker/HabitTracker/src/HabitTracker/Habits/HabitRepository.cs:109-126 | an attempt never stores an empty list or a duplicate day |
| Habits.RemoveDayStepRemoves | HabitTracker/HabitTracker/src/HabitTracker/Habits/HabitRepository.cs:109-126 | a finished corrected attempt leaves the record without the day; a retry's entry reflects the table |
| Habits.AddDayBounded | HabitTracker/HabitTracker/src/HabitTracker/Habits/HabitRepository.cs:80-100 | at most ten writes; failure only after ten attempts, with an error naming habit, year, month and day |
| Habits.AddDayOnlyTouchesKey | HabitTracker/HabitTracker/src/HabitTracker/Habits/HabitRepository.cs:78-101 | only the record under the entry's key can change |
| Habits.AddDayStoresDay | HabitTracker/HabitTracker/src/HabitTracker/Habits/HabitRepository.cs:78-101 | when the corrected loop succeeds the record holds the day |
| Habits.AddDayKeepsWellKept | HabitTracker/HabitTracker/src/HabitTracker/Habits/HabitRepository.cs:78-101 | stored records keep at least one day and no day twice |
| Habits.AddDayFailureWritesNothing | HabitTracker/HabitTracker/src/HabitTracker/Habits/HabitRepository.cs:80-100 | without concurrent changes, ten failed attempts leave the table as it was |
| Habits.RemoveDayBounded | HabitTracker/HabitTracker/src/HabitTracker/Habits/HabitRepository.cs:105-129 | at most ten writes; failure only after ten attempts, with an error naming habit, year, month and day |
| Habits.RemoveDayOnlyTouchesKey | HabitTracker/HabitTracker/src/HabitTracker/Habits/HabitRepository.cs:103-130 | only the record under the entry's key can change |
| Habits.RemoveDayKeepsWellKept | HabitTracker/HabitTracker/src/HabitTracker/Habits/HabitRepository.cs:112-119 | the loop never persists an empty record: it deletes it instead |
| Habits.RemoveDayRemovesDay | HabitTracker/HabitTracker/src/HabitTracker/Habits/HabitRepository.cs:103-130 | when the corrected loop succeeds, the record lacks the day or is gone |
| Habits.CreateHabitMonthRecordEntry | HabitTracker/HabitTracker/src/HabitTracker/Habits/HabitRepository.cs:132-140 | the new record is keyed by the user, habit, year and month, with dates exactly [day] and a null version |
| Habits.WithoutHabit | HabitTracker/HabitTracker/src/HabitTracker/Habits/HabitRepository.cs:41-45 | exactly the records not of the user's habit remain, unchanged |
| Habits.RegisterDoneHabitSpec | HabitTracker/HabitTracker/src/HabitTracker/Habits/HabitRepository.cs:61-76 | `RegisterDoneHabit`: a missing habit fails, a month without record gets one save, else the add loop of the given policy |
| Habits.DeleteDoneHabitSpec | HabitTracker/HabitTracker/src/HabitTracker/Habits/HabitRepository.cs:142-154 | `DeleteDoneHabit`: a month without record fails with a not-found error, else the remove loop of the given policy |
| Habits.RegisterStoresDay | HabitTracker/HabitTracker/src/HabitTracker/Habits/HabitRepository.cs:61-76 | with the corrected loop, a successful mark leaves the day in the month's record |
| Habits.RegisterOnlyTouchesMonth | HabitTracker/HabitTracker/src/HabitTracker/Habits/HabitRepository.cs:61-76 | for either policy, a missing definition fails with no write; otherwise only the month's record can change |
| Habits.RegisterFirstDayOfMonth | HabitTracker/HabitTracker/src/HabitTracker/Habits/HabitRepository.cs:68-73 | for either policy, a month without record gets one new record holding just the day, in one write |
| Habits.RegisterTwiceIsIdempotent | HabitTracker/HabitTracker/src/HabitTracker/Habits/HabitRepository.cs:82-83 | for either policy, marking the same day again writes nothing and changes nothing |
| Habits.DeleteDoneHabitRemovesDay | HabitTracker/HabitTracker/src/HabitTracker/Habits/HabitRepository.cs:142-154 | with the corrected loop, a successful unmark leaves the month's record without the day, or gone |
| Habits.DeleteDoneHabitWithoutDay | HabitTracker/HabitTracker/src/HabitTracker/Habits/HabitRepository.cs:148-153 | for either policy, no month record fails with a not-found error and no write; a record lacking the day is a silent no-op |
| Habits.RequestsKeepTableWellKept | HabitTracker/HabitTracker/src/HabitTracker/Habits/HabitRepository.cs:61-154 | for either policy, marking and unmarking never store an empty record or a day twice |
| Habits.QuietRemoveWritesOnce | HabitTracker/HabitTracker/src/HabitTracker/Habits/HabitRepository.cs:105-127 | without interference, removing a present day writes once and passes, for either policy |
| Habits.MarkThenUnmarkRestores | HabitTracker/HabitTracker/src/HabitTracker/Habits/HabitRepository.cs:61-154 | without interference and for either policy, mark then unmark of a new day passes and restores every record's days |
| Habits.UnmarkThenMarkRestores | HabitTracker/HabitTracker/src/HabitTracker/Habits/HabitRepository.cs:61-154 | without interference and for either policy, unmarking a record's only day deletes it, and marking the day again stores the record [day] anew |
| Habits.AddDayLostAfterConcurrentDelete | HabitTracker/HabitTracker/src/HabitTracker/Habits/HabitRepository.cs:89-96 | record deleted concurrently at the first attempt: the code reports success and stores nothing; corrected stores [4] |
| Habits.TransientFailuresRepeat | HabitTracker/HabitTracker/src/HabitTracker/Habits/HabitRepository.cs:110-127 | while writes fail transiently, the remove loop just repeats itself |
| Habits.RemoveDayThrowsAfterLastSuccess | HabitTracker/HabitTracker/src/HabitTracker/Habits/HabitRepository.cs:105-129 | only the tenth write succeeds: the day is removed yet the code throws; corrected reports success |
| Habits.HabitRepository.constructor | HabitTracker/HabitTracker/src/HabitTracker/Habits/HabitRepository.cs:16-20 | the repository works on the given definitions and month records |
| Habits.HabitRepository.GetHabitDefinition | HabitTracker/HabitTracker/src/HabitTracker/Habits/HabitRepository.cs:263-276 | the definition iff one exists under (user, habit), else the not-found error naming the habit |
| Habits.HabitRepository.CreateHabit | HabitTracker/HabitTracker/src/HabitTracker/Habits/HabitRepository.cs:22-27 | the new definition is stored under its own key; month records untouched |
| Habits.HabitRepository.UpdateHabit | HabitTracker/HabitTracker/src/HabitTracker/Habits/HabitRepository.cs:29-35 | missing definition fails without change; else the copy is saved under its key, which renames the habit |
| Habits.HabitRepository.DeleteHabit | HabitTracker/HabitTracker/src/HabitTracker/Habits/HabitRepository.cs:37-47 | missing definition fails with nothing deleted; else every month record of the habit and the definition are gone, all else kept |
| Habits.HabitRepository.AddDayToRecord | HabitTracker/HabitTracker/src/HabitTracker/Habits/HabitRepository.cs:78-101 | for either policy, the outcome and new table are those of `AddDayLoop`; definitions unchanged |
| Habits.HabitRepository.RemoveDayFromRecord | HabitTracker/HabitTracker/src/HabitTracker/Habits/HabitRepository.cs:103-130 | for either policy, the outcome and new table are those of `RemoveDayLoop`; definitions unchanged |
| Habits.HabitRepository.RegisterDoneHabit | HabitTracker/HabitTracker/src/HabitTracker/Habits/HabitRepository.cs:61-76 | for either policy, outcome and table are `RegisterDoneHabitSpec`'s: missing habit fails, a new month gets one save, else the add loop |
| Habits.HabitRepository.DeleteDoneHabit | HabitTracker/HabitTracker/src/HabitTracker/Habits/HabitRepository.cs:142-154 | for either policy, outcome and table are `DeleteDoneHabitSpec`'s: missing record fails, else the remove loop |

## Left out

- Async execution, the AWS SDK, HTTP controllers and the identity lookup are not modelled.
  - The user id is an input.
  - The store is the map-plus-environment model described above.
  - The SDK's own version check behind `[DynamoDBVersion]` is modelled as a compare of versions.
- `DateTime.Today`, `DateTime.Now` and `Guid.NewGuid` are parameters.
- `GetHabitRecordsForPastWeek`, `GetHabitRecordsForPeriod` and `GetHabitDefinitionsByUserId` are not modelled. They only compose the query, the all-time count (`HabitMonthRecords.AllTimeDoneCount`), the date-range helper and the chart helper into `HabitRecord` outputs. `HabitRecord`'s constructor is called with six arguments but declares five.
- Query semantics are reduced to key lookups:
  - ordering of query results;
  - the begins-with prefix query of `GetAllHabitMonthRecordEntriesAsync`, modelled as "every key of the user's habit";
  - `Single()` on a query result.
- The multi-property converters' base class is not part of this model: joining values into one key text and regex validation are left out. Only the ordered values and the property order are modelled.
- `ChartData`'s string form is left out, and so is the `HabitMetrics` output. The chart is a pair of parallel sequences.
- `DateTime`'s year range 1..9999 is not enforced, except where `ToChartString` needs four digits. `AddDays` overflow at the range ends is not modelled.
- `UpdateHabit` calls `CloneWithNewName`, which `HabitDefinitionEntry` does not declare. The model uses `CopyWithNewValues` with the request, as `HabitDefinitionEntry` does.
- Habits.DeleteDoneHabitSpec: `DeleteDoneHabit` builds its pointer with `HabitMonthRecordPointer.Create(request)`, which `HabitMonthRecordPointer` does not declare. The model assumes it builds the same (habit id, year, month) pointer as `RegisterDoneHabit` does (`Habits.RecordKeyOf`).
- Habits.HabitRepository.CreateHabit: a failure of the single non-retried save is not modelled.
- Habits.HabitRepository.UpdateHabit: a failure of the single non-retried save is not modelled.
- Habits.HabitRepository.DeleteHabit: failures of its deletes are not modelled. The records are deleted in an unspecified order rather than query order.
- After a successful save, `AddDayToRecord` and the first-record save of `RegisterDoneHabit` return without using the entry again, so the version a save gives the in-memory entry appears only in the table there. `RemoveDayFromRecord` goes on with the entry carrying the next version, as `Habits.AfterWrite` models.
- Digits.ParseInt: accepts only an optional '-' followed by decimal digits. `int.Parse` with `NumberStyles.Integer` also accepts a leading '+' and leading or trailing white space, and these are not modelled.
- DateTimeExtensions.ToChartString: uses the invariant culture and the Gregorian calendar. In "yyyy/MM/dd", '/' is the current culture's date separator and the fields follow the culture's calendar, and neither is modelled.
- TimeRecords.GetDatesBetween: requires a valid start date, because stepping needs a real calendar date. The code would raise for an impossible start inside `DateTime` itself.
- TimeRecords.Intersect: states membership and distinctness but not the exact order of first occurrence.
- The sentinel containers of `TryGetYearContainer` and `TryGetMonthContainer` are fresh objects that nothing else sees. `new Date(0, 0, 0)` is kept as the plain record `Date(0, 0, 0)`.
- `AddToExistingYear` and `AddNewYear` are helper methods that hold the two branches of `TimeRecord.AddIfNotIncluded`. They do not exist in the code.
- `WalkDates` is a helper method that holds the loop of `ChartDataCreator.Create`. It does not exist in the code.

## Findings

| source | as written | input that shows it | evidently intended | confidence | as-written member | corrected member |
|---|---|---|---|---|---|---|
| HabitTracker/HabitTracker/src/HabitTracker/Habits/HabitRepository.cs:89-96 | after a failed save, when the record is gone the version is nulled but the day just added stays in the local `Dates`, so the next attempt finds the day and returns success without writing | record holding day 3; a concurrent request deletes it before the save of day 4; no later interference | start over from an empty entry, so the next attempt saves a new record holding the day | not executed | Habits.AddDayLostAfterConcurrentDelete | Habits.AddDayStoresDay |
| HabitTracker/HabitTracker/src/HabitTracker/Habits/HabitRepository.cs:105-129 | a successful write is noticed only at the top of the next attempt, so a success on the tenth attempt still reaches the throw | record holding days 5 and 6; remove day 5; the first nine writes fail, the tenth succeeds | return success as soon as a write succeeds | not executed | Habits.RemoveDayThrowsAfterLastSuccess | Habits.RemoveDayRemovesDay |
| HabitTracker/HabitTracker/src/HabitTracker/Habits/HabitRepository.cs:165-167 | the private `GetChartData` has no empty guard and reads `dates[0]` of an empty list | a habit without any month record | return the empty chart, as `ChartDataCreator.Create` does (`CreateSpec([], today) == Ok(EmptyChart)`, the second ensures of `HabitReports.LegacyChartFailsWithoutRecords`) | not executed | HabitReports.LegacyChartFailsWithoutRecords | ChartDataCreator.Create |
| HabitTracker/HabitTracker/src/HabitTracker/Habits/HabitRepository.cs:243 | the private `GetDoneDatesInRange` filters on the day of the month alone | window 29 January to 4 February 2024; records January {30} and February {2} | filter on the full date, as `DoneDateExtractor` does | not executed | HabitReports.LegacyLosesDaysAcrossMonthEnd | DoneDateExtractor.DoneDatesInRangeComplete |
