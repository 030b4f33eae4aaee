/** `HabitRepository`: the habit operations over the table that holds habit
    definitions and month records, with the optimistic-retry loops that add
    a done day to a month record or remove it again.

    The table is a pair of maps. A month record carries the version number
    that the store checks on every write: a record saved with a null version
    must not exist yet, and a loaded record is written back only if nobody
    has written it since it was loaded. Everything the store does besides
    that check is a parameter: at each attempt `env(i)` says what a
    concurrent request did to the record just before the write, and whether
    the write fails for some other reason. */
module Habits {
  import opened Wrappers
  import opened Errors
  import opened Calendar
  import opened MonthContainers
  import opened HabitDefinitions
  import opened HabitMonthRecords

  /** The definition table's key: the owner and the habit id. */
  datatype DefinitionKey = DefinitionKey(userId: string, habitId: string)

  /** The month-record table's key: hash key and range key. */
  datatype RecordKey = RecordKey(partitionKey: HabitPartitionKey, pointer: HabitMonthRecordPointer)

  /** A month record as the table holds it; `version` is the `[DynamoDBVersion]` attribute. */
  datatype StoredRecord = StoredRecord(dates: seq<int>, version: int)

  type Table = map<RecordKey, StoredRecord>

  /** What a concurrent request does to the record just before an attempt writes it. */
  datatype Interference = Untouched | Removed | Overwritten(dates: seq<int>)

  /** One attempt as the store sees it: a concurrent change, and whether the
      write fails for a reason other than its version check. */
  datatype Attempt = Attempt(concurrent: Interference, transientFailure: bool)

  type Environment = nat -> Attempt

  /** `DoneHabitRequest`: the habit and the day it was done. */
  datatype DoneHabitRequest = DoneHabitRequest(habitId: string, date: Date)

  /** What a request does: its outcome, the month-record table afterwards,
      and the number of writes it attempted. */
  datatype Run = Run(outcome: Outcome<Error>, table: Table, writes: nat)

  /** The retry loops as the code writes them, or with the defect in each
      repaired (see `AfterFailedAdd` and `RemoveDayLoop`). */
  datatype Policy = AsWritten | Corrected

  /** Both retry loops stop after this many attempts. */
  const MaxAttempts: nat := 10

  function KeyOf(e: HabitMonthRecordEntry): RecordKey {
    RecordKey(e.partitionKey, e.pointer)
  }

  /** The key of the month record that holds a request's day. */
  function RecordKeyOf(userId: string, request: DoneHabitRequest): RecordKey {
    RecordKey(CreatePartitionKey(userId), HabitMonthRecordPointer(request.habitId, Some(request.date.year), Some(request.date.month)))
  }

  /** The entry a query for the key returns while the table holds `s` there. */
  function Loaded(k: RecordKey, s: StoredRecord): HabitMonthRecordEntry {
    HabitMonthRecordEntry(k.partitionKey, k.pointer, s.dates, Some(s.version))
  }

  /** A concurrent request's change to the record under `k`. */
  function Interfere(t: Table, k: RecordKey, c: Interference): Table {
    match c
    case Untouched => t
    case Removed => t - {k}
    case Overwritten(dates) => t[k := StoredRecord(dates, if k in t then t[k].version + 1 else 0)]
  }

  /** The store's version check for writing `e`. */
  predicate VersionMatches(t: Table, e: HabitMonthRecordEntry) {
    match e.versionNumber
    case None => KeyOf(e) !in t
    case Some(v) => KeyOf(e) in t && t[KeyOf(e)].version == v
  }

  /** The version a successful save gives the record. */
  function NextVersion(v: Option<int>): int {
    if v.None? then 0 else v.value + 1
  }

  /** `SaveAsync(entry)`: the new table, or `None` when the save throws. */
  function Save(t: Table, e: HabitMonthRecordEntry, transientFailure: bool): Option<Table> {
    if transientFailure || !VersionMatches(t, e) then None
    else Some(t[KeyOf(e) := StoredRecord(e.dates, NextVersion(e.versionNumber))])
  }

  /** `DeleteAsync(entry)`: the new table, or `None` when the delete throws. */
  function Delete(t: Table, e: HabitMonthRecordEntry, transientFailure: bool): Option<Table> {
    if transientFailure || !VersionMatches(t, e) then None
    else Some(t - {KeyOf(e)})
  }

  /** `Dates.Remove(day)`: drops the first occurrence, if any. */
  function RemoveFirst(s: seq<int>, x: int): (r: seq<int>)
    ensures x !in s ==> r == s
    ensures x in s ==> |r| == |s| - 1
  {
    if s == [] then []
    else if s[0] == x then s[1..]
    else [s[0]] + RemoveFirst(s[1..], x)
  }

  /** Exactly one copy of the day goes, if there is one. */
  lemma {:induction false} RemoveFirstCounts(s: seq<int>, x: int)
    ensures multiset(RemoveFirst(s, x)) == multiset(s) - multiset{x}
  {
    if s != [] {
      assert s == [s[0]] + s[1..];
      RemoveFirstCounts(s[1..], x);
    }
  }

  /** Removing a day from a list without duplicates removes every copy of
      it and keeps the list without duplicates. */
  lemma RemoveFirstFromDistinct(s: seq<int>, x: int)
    requires NoDuplicates(s)
    ensures x !in RemoveFirst(s, x) && NoDuplicates(RemoveFirst(s, x))
    ensures forall y :: y != x ==> (y in RemoveFirst(s, x) <==> y in s)
  {
    var r := RemoveFirst(s, x);
    RemoveFirstCounts(s, x);
    assert forall y :: y in r <==> multiset(r)[y] > 0;
    assert forall y :: y in s <==> multiset(s)[y] > 0;
    assert multiset(s)[x] <= 1 by { DistinctCountsAtMostOne(s, x); }
    forall i, j | 0 <= i < j < |r|
      ensures r[i] != r[j]
    {
      if r[i] == r[j] {
        assert multiset(r)[r[i]] >= 2 by { TwoIndicesCount(r, i, j); }
        DistinctCountsAtMostOne(s, r[i]);
      }
    }
  }

  lemma {:induction false} DistinctCountsAtMostOne(s: seq<int>, x: int)
    requires NoDuplicates(s)
    ensures multiset(s)[x] <= 1
  {
    if s != [] {
      assert s == [s[0]] + s[1..];
      DistinctCountsAtMostOne(s[1..], x);
      if s[0] == x {
        assert x !in s[1..];
      }
    }
  }

  lemma {:induction false} TwoIndicesCount(s: seq<int>, i: nat, j: nat)
    requires i < j < |s| && s[i] == s[j]
    ensures multiset(s)[s[i]] >= 2
  {
    assert s == s[..i] + [s[i]] + s[i + 1..j] + [s[j]] + s[j + 1..];
  }

  /** The write in `RemoveDayFromRecord`: save the shortened list, or delete
      the record when no day is left. */
  function WriteBack(t: Table, removed: HabitMonthRecordEntry, transientFailure: bool): (r: Option<Table>)
    ensures r.Some? ==> r.value - {KeyOf(removed)} == t - {KeyOf(removed)}
    ensures r.Some? && removed.dates != [] ==> KeyOf(removed) in r.value && r.value[KeyOf(removed)].dates == removed.dates
    ensures r.Some? && removed.dates == [] ==> KeyOf(removed) !in r.value
    ensures r.None? <==> transientFailure || !VersionMatches(t, removed)
  {
    if removed.dates != [] then Save(t, removed, transientFailure)
    else Delete(t, removed, transientFailure)
  }

  /** Every stored record has at least one day and no day twice. */
  predicate WellKept(t: Table) {
    forall k :: k in t ==> t[k].dates != [] && NoDuplicates(t[k].dates)
  }

  /** Concurrent requests store only well-kept records as well. */
  ghost predicate WellBehaved(env: Environment) {
    forall i: nat :: WellBehavedAttempt(env(i))
  }

  /** No concurrent request and no failure at any attempt. */
  ghost predicate Quiet(env: Environment) {
    forall i: nat :: env(i) == Attempt(Untouched, false)
  }

  /** No concurrent request touches the record at any attempt; writes may
      still fail for other reasons. */
  ghost predicate Undisturbed(env: Environment) {
    forall i: nat :: env(i).concurrent == Untouched
  }

  /** The local entry is what a query for its key returns now, or, when the
      record is gone, an empty entry with a null version. */
  predicate Reflects(t: Table, e: HabitMonthRecordEntry) {
    if KeyOf(e) in t then e == Loaded(KeyOf(e), t[KeyOf(e)])
    else e.dates == [] && e.versionNumber == None
  }

  /** A concurrent change at one attempt stores only a well-kept record. */
  predicate WellBehavedAttempt(a: Attempt) {
    a.concurrent.Overwritten? ==> a.concurrent.dates != [] && NoDuplicates(a.concurrent.dates)
  }

  // ---------------------------------------------------------------------
  // One attempt of a retry loop
  // ---------------------------------------------------------------------

  /** What one attempt leaves behind: the request is finished, or the loop
      goes on with the re-queried entry. */
  datatype Step = Finished(outcome: Outcome<Error>, table: Table) | Retry(table: Table, entry: HabitMonthRecordEntry)

  /** The local entry after a failed save in `AddDayToRecord`: the record as
      re-queried; when it is gone, the code nulls the version but keeps the
      day it has just added, so the next attempt finds the day and returns
      without writing. The corrected loop starts over from an empty entry,
      so the next attempt saves a new record holding the day. */
  function AfterFailedAdd(t: Table, added: HabitMonthRecordEntry, policy: Policy): HabitMonthRecordEntry {
    if KeyOf(added) in t then Loaded(KeyOf(added), t[KeyOf(added)])
    else if policy == AsWritten then added.(versionNumber := None)
    else added.(dates := [], versionNumber := None)
  }

  /** One attempt of `AddDayToRecord` once the day is known to be missing:
      append it, save, and re-query on failure. */
  function AddDayStep(t: Table, e: HabitMonthRecordEntry, day: int, a: Attempt, policy: Policy): (s: Step)
    ensures s.Retry? ==> KeyOf(s.entry) == KeyOf(e)
    ensures s.table - {KeyOf(e)} == t - {KeyOf(e)}
  {
    var added := e.(dates := e.dates + [day]);
    var current := Interfere(t, KeyOf(e), a.concurrent);
    match Save(current, added, a.transientFailure)
    case Some(saved) => Finished(Pass, saved)
    case None => Retry(current, AfterFailedAdd(current, added, policy))
  }

  /** The local entry after a successful write: a save gives it the next version. */
  function AfterWrite(removed: HabitMonthRecordEntry): HabitMonthRecordEntry {
    if removed.dates != [] then removed.(versionNumber := Some(NextVersion(removed.versionNumber)))
    else removed
  }

  /** One attempt of `RemoveDayFromRecord` once the day is known to be
      present: drop it, write back, and re-query on failure. The code notices
      a successful write only at the top of the next attempt, where the day
      is gone; the corrected loop finishes as soon as a write succeeds. */
  function RemoveDayStep(t: Table, e: HabitMonthRecordEntry, day: int, a: Attempt, policy: Policy): Step {
    var removed := e.(dates := RemoveFirst(e.dates, day));
    var current := Interfere(t, KeyOf(e), a.concurrent);
    match WriteBack(current, removed, a.transientFailure)
    case Some(after) =>
      if policy == Corrected then Finished(Pass, after) else Retry(after, AfterWrite(removed))
    case None =>
      if KeyOf(e) !in current then Finished(Pass, current)
      else Retry(current, Loaded(KeyOf(e), current[KeyOf(e)]))
  }

  /** A remove retries with an entry for the same key. */
  lemma RemoveDayStepKey(t: Table, e: HabitMonthRecordEntry, day: int, a: Attempt, policy: Policy)
    ensures RemoveDayStep(t, e, day, a, policy).Retry? ==> KeyOf(RemoveDayStep(t, e, day, a, policy).entry) == KeyOf(e)
  {
  }

  /** A remove writes only the record under the entry's key and retries with
      an entry for the same key. */
  lemma RemoveDayStepFrame(t: Table, e: HabitMonthRecordEntry, day: int, a: Attempt, policy: Policy)
    ensures RemoveDayStep(t, e, day, a, policy).Retry? ==> KeyOf(RemoveDayStep(t, e, day, a, policy).entry) == KeyOf(e)
    ensures RemoveDayStep(t, e, day, a, policy).table - {KeyOf(e)} == t - {KeyOf(e)}
  {
    var removed := e.(dates := RemoveFirst(e.dates, day));
    var current := Interfere(t, KeyOf(e), a.concurrent);
    assert KeyOf(removed) == KeyOf(e) && current - {KeyOf(e)} == t - {KeyOf(e)};
    var written := WriteBack(current, removed, a.transientFailure);
    if written.Some? {
      assert written.value - {KeyOf(e)} == t - {KeyOf(e)};
    }
  }

  /** A failed add never finishes the request. */
  lemma AddDayStepFinishesOnlyOnSave(t: Table, e: HabitMonthRecordEntry, day: int, a: Attempt, policy: Policy)
    ensures AddDayStep(t, e, day, a, policy).Finished? ==>
      AddDayStep(t, e, day, a, policy).outcome == Pass &&
      KeyOf(e) in AddDayStep(t, e, day, a, policy).table &&
      AddDayStep(t, e, day, a, policy).table[KeyOf(e)].dates == e.dates + [day]
  {
  }

  /** The corrected add retries with an entry that reflects the table. */
  lemma AddDayStepReflects(t: Table, e: HabitMonthRecordEntry, day: int, a: Attempt)
    ensures AddDayStep(t, e, day, a, Corrected).Retry? ==>
      Reflects(AddDayStep(t, e, day, a, Corrected).table, AddDayStep(t, e, day, a, Corrected).entry)
  {
  }

  /** An add keeps stored records non-empty and free of duplicates. */
  lemma AddDayStepKeepsWellKept(t: Table, e: HabitMonthRecordEntry, day: int, a: Attempt, policy: Policy)
    requires WellKept(t) && WellBehavedAttempt(a) && NoDuplicates(e.dates) && day !in e.dates
    ensures WellKept(AddDayStep(t, e, day, a, policy).table)
    ensures AddDayStep(t, e, day, a, policy).Retry? ==> NoDuplicates(AddDayStep(t, e, day, a, policy).entry.dates)
  {
    AddDayKeepsNoDuplicates(e.dates, day);
    assert AddDay(e.dates, day) == e.dates + [day];
  }

  /** A remove keeps stored records non-empty and free of duplicates, and
      retries with an entry free of duplicates. */
  lemma RemoveDayStepKeepsWellKept(t: Table, e: HabitMonthRecordEntry, day: int, a: Attempt, policy: Policy)
    requires WellKept(t) && WellBehavedAttempt(a) && NoDuplicates(e.dates)
    ensures WellKept(RemoveDayStep(t, e, day, a, policy).table)
    ensures RemoveDayStep(t, e, day, a, policy).Retry? ==> NoDuplicates(RemoveDayStep(t, e, day, a, policy).entry.dates)
  {
    RemoveFirstFromDistinct(e.dates, day);
    var removed := e.(dates := RemoveFirst(e.dates, day));
    var current := Interfere(t, KeyOf(e), a.concurrent);
    assert WellKept(current);
    var written := WriteBack(current, removed, a.transientFailure);
    if written.Some? {
      forall k | k in written.value
        ensures written.value[k].dates != [] && NoDuplicates(written.value[k].dates)
      {
        if k != KeyOf(e) {
          assert k in written.value - {KeyOf(e)};
          assert written.value[k] == (current - {KeyOf(e)})[k];
        }
      }
    }
  }

  /** When the corrected remove finishes, the record no longer holds the
      day; when it retries, its entry reflects the table. */
  lemma RemoveDayStepRemoves(t: Table, e: HabitMonthRecordEntry, day: int, a: Attempt)
    requires WellKept(t) && WellBehavedAttempt(a) && Reflects(t, e) && day in e.dates
    ensures RemoveDayStep(t, e, day, a, Corrected).Finished? ==>
      KeyOf(e) !in RemoveDayStep(t, e, day, a, Corrected).table ||
      day !in RemoveDayStep(t, e, day, a, Corrected).table[KeyOf(e)].dates
    ensures RemoveDayStep(t, e, day, a, Corrected).Retry? ==>
      Reflects(RemoveDayStep(t, e, day, a, Corrected).table, RemoveDayStep(t, e, day, a, Corrected).entry)
  {
    RemoveFirstFromDistinct(e.dates, day);
  }

  // ---------------------------------------------------------------------
  // The retry loops
  // ---------------------------------------------------------------------

  /** `AddDayToRecord(entry, day)` from attempt `i` on. */
  function AddDayLoop(t: Table, e: HabitMonthRecordEntry, day: int, env: Environment, i: nat, policy: Policy): Run
    requires i <= MaxAttempts
    decreases MaxAttempts - i
  {
    if i == MaxAttempts then
      Run(Fail(AddDayExhausted(e.pointer.habitId, e.pointer.year, e.pointer.month, day)), t, 0)
    else if day in e.dates then Run(Pass, t, 0)
    else
      match AddDayStep(t, e, day, env(i), policy)
      case Finished(outcome, after) => Run(outcome, after, 1)
      case Retry(after, entry) =>
        var next := AddDayLoop(after, entry, day, env, i + 1, policy);
        Run(next.outcome, next.table, next.writes + 1)
  }

  /** `RemoveDayFromRecord(entry, day)` from attempt `i` on. */
  function RemoveDayLoop(t: Table, e: HabitMonthRecordEntry, day: int, env: Environment, i: nat, policy: Policy): Run
    requires i <= MaxAttempts
    decreases MaxAttempts - i
  {
    if i == MaxAttempts then
      Run(Fail(RemoveDayExhausted(e.pointer.habitId, e.pointer.year, e.pointer.month, day)), t, 0)
    else if day !in e.dates then Run(Pass, t, 0)
    else
      match RemoveDayStep(t, e, day, env(i), policy)
      case Finished(outcome, after) => Run(outcome, after, 1)
      case Retry(after, entry) =>
        var next := RemoveDayLoop(after, entry, day, env, i + 1, policy);
        Run(next.outcome, next.table, next.writes + 1)
  }

  /** At most one write per remaining attempt; a failure comes only after
      all of them and names the record's year and month, the day and the habit. */
  lemma {:induction false} AddDayBounded(t: Table, e: HabitMonthRecordEntry, day: int, env: Environment, i: nat, policy: Policy)
    requires i <= MaxAttempts
    ensures AddDayLoop(t, e, day, env, i, policy).writes <= MaxAttempts - i
    ensures AddDayLoop(t, e, day, env, i, policy).outcome.Fail? ==>
      AddDayLoop(t, e, day, env, i, policy).writes == MaxAttempts - i &&
      AddDayLoop(t, e, day, env, i, policy).outcome.error ==
        AddDayExhausted(e.pointer.habitId, e.pointer.year, e.pointer.month, day)
    decreases MaxAttempts - i
  {
    if i < MaxAttempts && day !in e.dates {
      var s := AddDayStep(t, e, day, env(i), policy);
      if s.Retry? {
        AddDayBounded(s.table, s.entry, day, env, i + 1, policy);
      } else {
        AddDayStepFinishesOnlyOnSave(t, e, day, env(i), policy);
      }
    }
  }

  /** Only the record under the entry's key can change. */
  lemma {:induction false} AddDayOnlyTouchesKey(t: Table, e: HabitMonthRecordEntry, day: int, env: Environment, i: nat, policy: Policy)
    requires i <= MaxAttempts
    ensures AddDayLoop(t, e, day, env, i, policy).table - {KeyOf(e)} == t - {KeyOf(e)}
    decreases MaxAttempts - i
  {
    if i < MaxAttempts && day !in e.dates {
      var s := AddDayStep(t, e, day, env(i), policy);
      if s.Retry? {
        AddDayOnlyTouchesKey(s.table, s.entry, day, env, i + 1, policy);
      }
    }
  }

  /** The corrected loop succeeds only when the record holds the day. */
  lemma {:induction false} AddDayStoresDay(t: Table, e: HabitMonthRecordEntry, day: int, env: Environment, i: nat)
    requires i <= MaxAttempts && Reflects(t, e)
    ensures AddDayLoop(t, e, day, env, i, Corrected).outcome.Pass? ==>
      KeyOf(e) in AddDayLoop(t, e, day, env, i, Corrected).table &&
      day in AddDayLoop(t, e, day, env, i, Corrected).table[KeyOf(e)].dates
    decreases MaxAttempts - i
  {
    if i < MaxAttempts && day !in e.dates {
      var s := AddDayStep(t, e, day, env(i), Corrected);
      AddDayStepFinishesOnlyOnSave(t, e, day, env(i), Corrected);
      if s.Retry? {
        AddDayStepReflects(t, e, day, env(i));
        AddDayStoresDay(s.table, s.entry, day, env, i + 1);
      }
    }
  }

  /** Whatever the loop writes has days and no day twice. */
  lemma {:induction false} AddDayKeepsWellKept(t: Table, e: HabitMonthRecordEntry, day: int, env: Environment, i: nat, policy: Policy)
    requires i <= MaxAttempts && WellKept(t) && WellBehaved(env) && NoDuplicates(e.dates)
    ensures WellKept(AddDayLoop(t, e, day, env, i, policy).table)
    decreases MaxAttempts - i
  {
    if i < MaxAttempts && day !in e.dates {
      var s := AddDayStep(t, e, day, env(i), policy);
      AddDayStepKeepsWellKept(t, e, day, env(i), policy);
      if s.Retry? {
        AddDayKeepsWellKept(s.table, s.entry, day, env, i + 1, policy);
      }
    }
  }

  /** When nobody else touches the record, an add that runs out of attempts
      leaves the table as it found it. */
  lemma {:induction false} AddDayFailureWritesNothing(t: Table, e: HabitMonthRecordEntry, day: int, env: Environment, i: nat, policy: Policy)
    requires i <= MaxAttempts && Undisturbed(env)
    ensures AddDayLoop(t, e, day, env, i, policy).outcome.Fail? ==> AddDayLoop(t, e, day, env, i, policy).table == t
    decreases MaxAttempts - i
  {
    if i < MaxAttempts && day !in e.dates {
      var s := AddDayStep(t, e, day, env(i), policy);
      if s.Retry? {
        assert env(i).concurrent == Untouched;
        AddDayFailureWritesNothing(s.table, s.entry, day, env, i + 1, policy);
      }
    }
  }

  /** At most one write per remaining attempt; a failure comes only after
      all of them and names the record's year and month, the day and the habit. */
  lemma {:induction false} RemoveDayBounded(t: Table, e: HabitMonthRecordEntry, day: int, env: Environment, i: nat, policy: Policy)
    requires i <= MaxAttempts
    ensures RemoveDayLoop(t, e, day, env, i, policy).writes <= MaxAttempts - i
    ensures RemoveDayLoop(t, e, day, env, i, policy).outcome.Fail? ==>
      RemoveDayLoop(t, e, day, env, i, policy).writes == MaxAttempts - i &&
      RemoveDayLoop(t, e, day, env, i, policy).outcome.error ==
        RemoveDayExhausted(e.pointer.habitId, e.pointer.year, e.pointer.month, day)
    decreases MaxAttempts - i
  {
    if i < MaxAttempts && day in e.dates {
      var s := RemoveDayStep(t, e, day, env(i), policy);
      RemoveDayStepKey(t, e, day, env(i), policy);
      if s.Retry? {
        RemoveDayBounded(s.table, s.entry, day, env, i + 1, policy);
      }
    }
  }

  /** Only the record under the entry's key can change. */
  lemma {:induction false} RemoveDayOnlyTouchesKey(t: Table, e: HabitMonthRecordEntry, day: int, env: Environment, i: nat, policy: Policy)
    requires i <= MaxAttempts
    ensures RemoveDayLoop(t, e, day, env, i, policy).table - {KeyOf(e)} == t - {KeyOf(e)}
    decreases MaxAttempts - i
  {
    if i < MaxAttempts && day in e.dates {
      var s := RemoveDayStep(t, e, day, env(i), policy);
      RemoveDayStepFrame(t, e, day, env(i), policy);
      if s.Retry? {
        RemoveDayOnlyTouchesKey(s.table, s.entry, day, env, i + 1, policy);
      }
    }
  }

  /** The loop never stores an empty record: a list that would become empty
      is deleted instead. */
  lemma {:induction false} RemoveDayKeepsWellKept(t: Table, e: HabitMonthRecordEntry, day: int, env: Environment, i: nat, policy: Policy)
    requires i <= MaxAttempts && WellKept(t) && WellBehaved(env) && NoDuplicates(e.dates)
    ensures WellKept(RemoveDayLoop(t, e, day, env, i, policy).table)
    decreases MaxAttempts - i
  {
    if i < MaxAttempts && day in e.dates {
      var s := RemoveDayStep(t, e, day, env(i), policy);
      RemoveDayStepKeepsWellKept(t, e, day, env(i), policy);
      if s.Retry? {
        RemoveDayKeepsWellKept(s.table, s.entry, day, env, i + 1, policy);
      }
    }
  }

  /** When the corrected loop succeeds, the record no longer holds the day
      (or is gone). */
  lemma {:induction false} RemoveDayRemovesDay(t: Table, e: HabitMonthRecordEntry, day: int, env: Environment, i: nat)
    requires i <= MaxAttempts && WellKept(t) && WellBehaved(env) && Reflects(t, e)
    ensures RemoveDayLoop(t, e, day, env, i, Corrected).outcome.Pass? ==>
      KeyOf(e) !in RemoveDayLoop(t, e, day, env, i, Corrected).table ||
      day !in RemoveDayLoop(t, e, day, env, i, Corrected).table[KeyOf(e)].dates
    decreases MaxAttempts - i
  {
    if i < MaxAttempts && day in e.dates {
      var s := RemoveDayStep(t, e, day, env(i), Corrected);
      RemoveDayStepRemoves(t, e, day, env(i));
      if s.Retry? {
        RemoveDayStepKeepsWellKept(t, e, day, env(i), Corrected);
        RemoveDayRemovesDay(s.table, s.entry, day, env, i + 1);
      }
    }
  }

  // ---------------------------------------------------------------------
  // The requests
  // ---------------------------------------------------------------------

  /** `CreateHabitMonthRecordEntry(userId, request)`: a new record, not yet
      stored, holding just the request's day. */
  function CreateHabitMonthRecordEntry(userId: string, request: DoneHabitRequest): (e: HabitMonthRecordEntry)
    ensures KeyOf(e) == RecordKeyOf(userId, request)
    ensures e.dates == [request.date.day] && e.versionNumber == None
  {
    HabitMonthRecordEntry(
      CreatePartitionKey(userId),
      HabitMonthRecordPointer(request.habitId, Some(request.date.year), Some(request.date.month)),
      [request.date.day],
      None)
  }

  /** `RegisterDoneHabit(request)`: the habit must be defined; a month without
      a record gets a new one (a single save, not retried), otherwise the day
      is added by the retry loop, as written or corrected. */
  function RegisterDoneHabitSpec(definitions: map<DefinitionKey, HabitDefinitionEntry>, t: Table,
                                 userId: string, request: DoneHabitRequest, env: Environment, policy: Policy): Run
  {
    if DefinitionKey(userId, request.habitId) !in definitions then
      Run(Fail(HabitNotFound(request.habitId)), t, 0)
    else
      var k := RecordKeyOf(userId, request);
      if k !in t then
        var current := Interfere(t, k, env(0).concurrent);
        match Save(current, CreateHabitMonthRecordEntry(userId, request), env(0).transientFailure)
        case Some(saved) => Run(Pass, saved, 1)
        case None => Run(Fail(WriteRejected), current, 1)
      else AddDayLoop(t, Loaded(k, t[k]), request.date.day, env, 0, policy)
  }

  /** `DeleteDoneHabit(request)`: the month must have a record; the day is
      removed by the retry loop, as written or corrected. The habit
      definition is not consulted. */
  function DeleteDoneHabitSpec(t: Table, userId: string, request: DoneHabitRequest, env: Environment, policy: Policy): Run {
    var k := RecordKeyOf(userId, request);
    if k !in t then
      Run(Fail(DoneRecordNotFound(request.habitId, request.date.year, request.date.month, request.date.day)), t, 0)
    else RemoveDayLoop(t, Loaded(k, t[k]), request.date.day, env, 0, policy)
  }

  /** A record belongs to the user's habit. */
  predicate OfHabit(k: RecordKey, userId: string, habitId: string) {
    k.partitionKey == CreatePartitionKey(userId) && k.pointer.habitId == habitId
  }

  /** The month records left after deleting every record of the habit. */
  function WithoutHabit(t: Table, userId: string, habitId: string): (r: Table)
    ensures forall k :: k in r <==> k in t && !OfHabit(k, userId, habitId)
    ensures forall k :: k in r ==> r[k] == t[k]
  {
    map k | k in t && !OfHabit(k, userId, habitId) :: t[k]
  }

  /** Every definition is stored under its own owner and habit id. */
  predicate DefinitionsKeyed(definitions: map<DefinitionKey, HabitDefinitionEntry>) {
    forall k :: k in definitions ==> definitions[k].userId == k.userId && definitions[k].habitId == k.habitId
  }

  /** With the corrected add loop, a marked day is stored afterwards,
      whatever the concurrent requests did. */
  lemma RegisterStoresDay(definitions: map<DefinitionKey, HabitDefinitionEntry>, t: Table,
                          userId: string, request: DoneHabitRequest, env: Environment)
    ensures RegisterDoneHabitSpec(definitions, t, userId, request, env, Corrected).outcome.Pass? ==>
      RecordKeyOf(userId, request) in RegisterDoneHabitSpec(definitions, t, userId, request, env, Corrected).table &&
      request.date.day in RegisterDoneHabitSpec(definitions, t, userId, request, env, Corrected).table[RecordKeyOf(userId, request)].dates
  {
    var k := RecordKeyOf(userId, request);
    if DefinitionKey(userId, request.habitId) in definitions && k in t {
      AddDayStoresDay(t, Loaded(k, t[k]), request.date.day, env, 0);
    }
  }

  /** Marking a day fails before any write when the habit is not defined,
      and otherwise changes no record but the month's own. */
  lemma RegisterOnlyTouchesMonth(definitions: map<DefinitionKey, HabitDefinitionEntry>, t: Table,
                                 userId: string, request: DoneHabitRequest, env: Environment, policy: Policy)
    ensures DefinitionKey(userId, request.habitId) !in definitions ==>
      RegisterDoneHabitSpec(definitions, t, userId, request, env, policy) == Run(Fail(HabitNotFound(request.habitId)), t, 0)
    ensures RegisterDoneHabitSpec(definitions, t, userId, request, env, policy).table - {RecordKeyOf(userId, request)}
      == t - {RecordKeyOf(userId, request)}
  {
    var k := RecordKeyOf(userId, request);
    if DefinitionKey(userId, request.habitId) in definitions {
      if k in t {
        AddDayOnlyTouchesKey(t, Loaded(k, t[k]), request.date.day, env, 0, policy);
      } else {
        assert Interfere(t, k, env(0).concurrent) - {k} == t - {k};
      }
    }
  }

  /** The first day of a month, with no concurrent request, is saved as a
      new record holding just that day. */
  lemma RegisterFirstDayOfMonth(definitions: map<DefinitionKey, HabitDefinitionEntry>, t: Table,
                                userId: string, request: DoneHabitRequest, env: Environment, policy: Policy)
    requires DefinitionKey(userId, request.habitId) in definitions
    requires RecordKeyOf(userId, request) !in t && env(0) == Attempt(Untouched, false)
    ensures RegisterDoneHabitSpec(definitions, t, userId, request, env, policy)
      == Run(Pass, t[RecordKeyOf(userId, request) := StoredRecord([request.date.day], 0)], 1)
  {
  }

  /** Marking the same day twice is marking it once: the second request
      finds the day and writes nothing. */
  lemma RegisterTwiceIsIdempotent(definitions: map<DefinitionKey, HabitDefinitionEntry>, t: Table,
                                  userId: string, request: DoneHabitRequest, env: Environment, policy: Policy)
    requires Quiet(env)
    ensures var first := RegisterDoneHabitSpec(definitions, t, userId, request, env, policy);
      RegisterDoneHabitSpec(definitions, first.table, userId, request, env, policy).table == first.table &&
      RegisterDoneHabitSpec(definitions, first.table, userId, request, env, policy).writes == 0
  {
    var k := RecordKeyOf(userId, request);
    var first := RegisterDoneHabitSpec(definitions, t, userId, request, env, policy);
    assert env(0) == Attempt(Untouched, false);
    if DefinitionKey(userId, request.habitId) in definitions {
      if k in t && request.date.day !in t[k].dates {
        var e := Loaded(k, t[k]);
        assert AddDayStep(t, e, request.date.day, env(0), policy)
          == Finished(Pass, t[k := StoredRecord(t[k].dates + [request.date.day], t[k].version + 1)]);
      }
      assert k in first.table && request.date.day in first.table[k].dates;
    }
  }

  /** With the corrected remove loop, unmarking a day leaves no copy of it in
      the month's record. */
  lemma DeleteDoneHabitRemovesDay(t: Table, userId: string, request: DoneHabitRequest, env: Environment)
    requires WellKept(t) && WellBehaved(env)
    ensures DeleteDoneHabitSpec(t, userId, request, env, Corrected).outcome.Pass? ==>
      RecordKeyOf(userId, request) !in DeleteDoneHabitSpec(t, userId, request, env, Corrected).table ||
      request.date.day !in DeleteDoneHabitSpec(t, userId, request, env, Corrected).table[RecordKeyOf(userId, request)].dates
  {
    var k := RecordKeyOf(userId, request);
    if k in t {
      RemoveDayRemovesDay(t, Loaded(k, t[k]), request.date.day, env, 0);
    }
  }

  /** Unmarking fails without writing when the month has no record, and is
      a silent no-op when the record lacks the day. */
  lemma DeleteDoneHabitWithoutDay(t: Table, userId: string, request: DoneHabitRequest, env: Environment, policy: Policy)
    ensures RecordKeyOf(userId, request) !in t ==>
      DeleteDoneHabitSpec(t, userId, request, env, policy) ==
        Run(Fail(DoneRecordNotFound(request.habitId, request.date.year, request.date.month, request.date.day)), t, 0)
    ensures RecordKeyOf(userId, request) in t && request.date.day !in t[RecordKeyOf(userId, request)].dates ==>
      DeleteDoneHabitSpec(t, userId, request, env, policy) == Run(Pass, t, 0)
  {
  }

  /** Neither request ever stores an empty record or a day twice. */
  lemma RequestsKeepTableWellKept(definitions: map<DefinitionKey, HabitDefinitionEntry>, t: Table,
                                  userId: string, request: DoneHabitRequest, env: Environment, policy: Policy)
    requires WellKept(t) && WellBehaved(env)
    ensures WellKept(RegisterDoneHabitSpec(definitions, t, userId, request, env, policy).table)
    ensures WellKept(DeleteDoneHabitSpec(t, userId, request, env, policy).table)
  {
    var k := RecordKeyOf(userId, request);
    assert WellBehavedAttempt(env(0));
    if k in t {
      AddDayKeepsWellKept(t, Loaded(k, t[k]), request.date.day, env, 0, policy);
      RemoveDayKeepsWellKept(t, Loaded(k, t[k]), request.date.day, env, 0, policy);
    }
  }

  /** `Dates.Remove(day)` undoes `Dates.Add(day)` of an absent day. */
  lemma {:induction false} RemoveFirstUndoesAppend(s: seq<int>, x: int)
    requires x !in s
    ensures RemoveFirst(s + [x], x) == s
  {
    if s != [] {
      assert (s + [x])[1..] == s[1..] + [x];
      RemoveFirstUndoesAppend(s[1..], x);
    }
  }

  /** With no concurrent request, a successful write of the remove loop
      ends the request with one write, as written or corrected: the code
      finds the day gone at the top of the next attempt. */
  lemma QuietRemoveWritesOnce(t: Table, e: HabitMonthRecordEntry, day: int, env: Environment, policy: Policy)
    requires Quiet(env) && KeyOf(e) in t && e == Loaded(KeyOf(e), t[KeyOf(e)])
    requires day in e.dates && day !in RemoveFirst(e.dates, day)
    ensures RemoveDayLoop(t, e, day, env, 0, policy)
      == Run(Pass, WriteBack(t, e.(dates := RemoveFirst(e.dates, day)), false).value, 1)
  {
    assert env(0) == Attempt(Untouched, false);
    var removed := e.(dates := RemoveFirst(e.dates, day));
    assert WriteBack(t, removed, false).Some?;
    if policy == AsWritten {
      assert env(1) == Attempt(Untouched, false);
      assert RemoveDayStep(t, e, day, env(0), policy) == Retry(WriteBack(t, removed, false).value, AfterWrite(removed));
    }
  }

  /** Marking a day and unmarking it again, with no concurrent request,
      restores every record's days (only the version moves on). */
  lemma MarkThenUnmarkRestores(definitions: map<DefinitionKey, HabitDefinitionEntry>, t: Table,
                               userId: string, request: DoneHabitRequest, env: Environment, policy: Policy)
    requires Quiet(env) && WellKept(t) && DefinitionKey(userId, request.habitId) in definitions
    requires RecordKeyOf(userId, request) in t ==> request.date.day !in t[RecordKeyOf(userId, request)].dates
    ensures var marked := RegisterDoneHabitSpec(definitions, t, userId, request, env, policy);
      var unmarked := DeleteDoneHabitSpec(marked.table, userId, request, env, policy);
      marked.outcome == Pass && unmarked.outcome == Pass &&
      unmarked.table - {RecordKeyOf(userId, request)} == t - {RecordKeyOf(userId, request)} &&
      (RecordKeyOf(userId, request) in unmarked.table <==> RecordKeyOf(userId, request) in t) &&
      (RecordKeyOf(userId, request) in t ==>
        unmarked.table[RecordKeyOf(userId, request)].dates == t[RecordKeyOf(userId, request)].dates)
  {
    var k := RecordKeyOf(userId, request);
    var day := request.date.day;
    assert env(0) == Attempt(Untouched, false);
    var marked := RegisterDoneHabitSpec(definitions, t, userId, request, env, policy);
    if k in t {
      var e := Loaded(k, t[k]);
      var stored := StoredRecord(t[k].dates + [day], t[k].version + 1);
      assert AddDayStep(t, e, day, env(0), policy) == Finished(Pass, t[k := stored]);
      assert marked == Run(Pass, t[k := stored], 1);
      RemoveFirstUndoesAppend(t[k].dates, day);
      var e2 := Loaded(k, stored);
      QuietRemoveWritesOnce(t[k := stored], e2, day, env, policy);
      assert WriteBack(t[k := stored], e2.(dates := t[k].dates), false).value
        == t[k := stored][k := StoredRecord(t[k].dates, t[k].version + 2)];
    } else {
      assert marked == Run(Pass, t[k := StoredRecord([day], 0)], 1);
      var e2 := Loaded(k, StoredRecord([day], 0));
      QuietRemoveWritesOnce(t[k := StoredRecord([day], 0)], e2, day, env, policy);
      assert t[k := StoredRecord([day], 0)] - {k} == t;
    }
  }

  /** Unmarking the only day of a month and marking it again, with no
      concurrent request: the unmark deletes the record, so no record of
      the month is stored in between, and the mark saves it anew holding
      just that day, with the version started over. */
  lemma UnmarkThenMarkRestores(definitions: map<DefinitionKey, HabitDefinitionEntry>, t: Table,
                               userId: string, request: DoneHabitRequest, env: Environment, policy: Policy)
    requires Quiet(env) && DefinitionKey(userId, request.habitId) in definitions
    requires RecordKeyOf(userId, request) in t && t[RecordKeyOf(userId, request)].dates == [request.date.day]
    ensures DeleteDoneHabitSpec(t, userId, request, env, policy) == Run(Pass, t - {RecordKeyOf(userId, request)}, 1)
    ensures RegisterDoneHabitSpec(definitions, t - {RecordKeyOf(userId, request)}, userId, request, env, policy)
      == Run(Pass, t[RecordKeyOf(userId, request) := StoredRecord([request.date.day], 0)], 1)
  {
    var k := RecordKeyOf(userId, request);
    var day := request.date.day;
    assert env(0) == Attempt(Untouched, false);
    var e := Loaded(k, t[k]);
    assert RemoveFirst([day], day) == [];
    QuietRemoveWritesOnce(t, e, day, env, policy);
    RegisterFirstDayOfMonth(definitions, t - {k}, userId, request, env, policy);
    assert (t - {k})[k := StoredRecord([day], 0)] == t[k := StoredRecord([day], 0)];
  }

  // ---------------------------------------------------------------------
  // The two retry defects, shown on concrete runs
  // ---------------------------------------------------------------------

  /** A concurrent request deletes the record at the first attempt; nothing
      interferes afterwards. */
  function DeletedAtFirstAttempt(i: nat): Attempt {
    if i == 0 then Attempt(Removed, false) else Attempt(Untouched, false)
  }

  /** The first nine writes fail for a transient reason; the tenth succeeds. */
  function FailsNineTimes(i: nat): Attempt {
    Attempt(Untouched, i < MaxAttempts - 1)
  }

  /** Adding day 4 to a record holding day 3 while another request deletes
      that record: the code reports success and stores nothing, the
      corrected loop stores a new record holding day 4. */
  lemma AddDayLostAfterConcurrentDelete(k: RecordKey)
    ensures var t := map[k := StoredRecord([3], 0)];
      AddDayLoop(t, Loaded(k, t[k]), 4, DeletedAtFirstAttempt, 0, AsWritten) == Run(Pass, map[], 1)
    ensures var t := map[k := StoredRecord([3], 0)];
      AddDayLoop(t, Loaded(k, t[k]), 4, DeletedAtFirstAttempt, 0, Corrected) == Run(Pass, map[k := StoredRecord([4], 0)], 2)
  {
    var t := map[k := StoredRecord([3], 0)];
    var e := Loaded(k, t[k]);
    var added := e.(dates := [3, 4]);
    assert e.dates + [4] == [3, 4];
    assert t - {k} == map[];
    assert AddDayStep(t, e, 4, DeletedAtFirstAttempt(0), AsWritten) == Retry(map[], added.(versionNumber := None));
    assert 4 in added.dates;
    var restart := added.(dates := [], versionNumber := None);
    assert AddDayStep(t, e, 4, DeletedAtFirstAttempt(0), Corrected) == Retry(map[], restart);
    assert [] + [4] == [4];
    assert AddDayStep(map[], restart, 4, DeletedAtFirstAttempt(1), Corrected) == Finished(Pass, map[k := StoredRecord([4], 0)]);
  }

  /** While the record stays loaded and every write fails transiently, the
      remove loop runs as it would from attempt nine. */
  lemma {:induction false} TransientFailuresRepeat(t: Table, e: HabitMonthRecordEntry, day: int, j: nat, policy: Policy)
    requires j <= MaxAttempts - 1 && KeyOf(e) in t && e == Loaded(KeyOf(e), t[KeyOf(e)]) && day in e.dates
    ensures RemoveDayLoop(t, e, day, FailsNineTimes, j, policy).outcome
      == RemoveDayLoop(t, e, day, FailsNineTimes, MaxAttempts - 1, policy).outcome
    ensures RemoveDayLoop(t, e, day, FailsNineTimes, j, policy).table
      == RemoveDayLoop(t, e, day, FailsNineTimes, MaxAttempts - 1, policy).table
    decreases MaxAttempts - j
  {
    if j < MaxAttempts - 1 {
      assert RemoveDayStep(t, e, day, FailsNineTimes(j), policy) == Retry(t, e);
      TransientFailuresRepeat(t, e, day, j + 1, policy);
    }
  }

  /** Removing day 5 from a record holding days 5 and 6 when only the tenth
      write succeeds: the day is removed, yet the code throws; the corrected
      loop reports success. */
  lemma RemoveDayThrowsAfterLastSuccess(k: RecordKey)
    ensures var t := map[k := StoredRecord([5, 6], 0)];
      var r := RemoveDayLoop(t, Loaded(k, t[k]), 5, FailsNineTimes, 0, AsWritten);
      r.outcome == Fail(RemoveDayExhausted(k.pointer.habitId, k.pointer.year, k.pointer.month, 5)) &&
      r.table == map[k := StoredRecord([6], 1)]
    ensures var t := map[k := StoredRecord([5, 6], 0)];
      var r := RemoveDayLoop(t, Loaded(k, t[k]), 5, FailsNineTimes, 0, Corrected);
      r.outcome == Pass && r.table == map[k := StoredRecord([6], 1)]
  {
    var t := map[k := StoredRecord([5, 6], 0)];
    var e := Loaded(k, t[k]);
    assert RemoveFirst([5, 6], 5) == [6];
    var after := map[k := StoredRecord([6], 1)];
    assert t[k := StoredRecord([6], 1)] == after;
    TransientFailuresRepeat(t, e, 5, 0, AsWritten);
    TransientFailuresRepeat(t, e, 5, 0, Corrected);
    var removed := e.(dates := [6]);
    assert RemoveDayStep(t, e, 5, FailsNineTimes(MaxAttempts - 1), AsWritten) == Retry(after, AfterWrite(removed));
    assert RemoveDayStep(t, e, 5, FailsNineTimes(MaxAttempts - 1), Corrected) == Finished(Pass, after);
  }

  // ---------------------------------------------------------------------
  // The repository
  // ---------------------------------------------------------------------

  /** `HabitRepository` together with the table it works on: the definitions
      and the month records. `userId` stands for the id the authorization
      header resolves to. */
  class HabitRepository {
    var definitions: map<DefinitionKey, HabitDefinitionEntry>
    var monthRecords: Table

    constructor(definitions: map<DefinitionKey, HabitDefinitionEntry>, monthRecords: Table)
      ensures this.definitions == definitions && this.monthRecords == monthRecords
    {
      this.definitions := definitions;
      this.monthRecords := monthRecords;
    }

    /** `GetHabitDefinitionAsync(userId, habitId)`: the definition, or the
        not-found error naming the habit. */
    function GetHabitDefinition(userId: string, habitId: string): (r: Result<HabitDefinitionEntry, Error>)
      reads this
      ensures r.Ok? <==> DefinitionKey(userId, habitId) in definitions
      ensures r.Ok? ==> r.value == definitions[DefinitionKey(userId, habitId)]
      ensures r.Err? ==> r.error == HabitNotFound(habitId)
    {
      if DefinitionKey(userId, habitId) in definitions then Ok(definitions[DefinitionKey(userId, habitId)])
      else Err(HabitNotFound(habitId))
    }

    /** `CreateHabit(habitName)`; `newGuid` is the id drawn for the habit. */
    method CreateHabit(userId: string, habitName: string, newGuid: string)
      modifies this
      ensures definitions == old(definitions)[DefinitionKey(userId, newGuid) := Create(userId, habitName, newGuid)]
      ensures monthRecords == old(monthRecords)
      ensures DefinitionsKeyed(old(definitions)) ==> DefinitionsKeyed(definitions)
    {
      var entry := Create(userId, habitName, newGuid);
      definitions := definitions[DefinitionKey(entry.userId, entry.habitId) := entry];
    }

    /** `UpdateHabit(request)`: the stored definition copied with the
        request's id and name, saved under the copy's own key. */
    method UpdateHabit(userId: string, request: UpdateHabitRequest) returns (r: Outcome<Error>)
      modifies this
      ensures r.Pass? <==> DefinitionKey(userId, request.habitId) in old(definitions)
      ensures r.Fail? ==> r.error == HabitNotFound(request.habitId) && definitions == old(definitions)
      ensures r.Pass? ==>
        var copy := CopyWithNewValues(old(definitions)[DefinitionKey(userId, request.habitId)], request);
        definitions == old(definitions)[DefinitionKey(copy.userId, copy.habitId) := copy]
      ensures r.Pass? && DefinitionsKeyed(old(definitions)) ==>
        definitions == old(definitions)[DefinitionKey(userId, request.habitId) :=
          old(definitions)[DefinitionKey(userId, request.habitId)].(name := request.name)]
      ensures monthRecords == old(monthRecords)
      ensures DefinitionsKeyed(old(definitions)) ==> DefinitionsKeyed(definitions)
    {
      var found := GetHabitDefinition(userId, request.habitId);
      if found.Err? {
        return Fail(found.error);
      }
      var updated := CopyWithNewValues(found.value, request);
      definitions := definitions[DefinitionKey(updated.userId, updated.habitId) := updated];
      return Pass;
    }

    /** `DeleteHabit(habitId)`: the habit must be defined; every month record
        of the habit is deleted, then the definition. */
    method DeleteHabit(userId: string, habitId: string) returns (r: Outcome<Error>)
      modifies this
      ensures r.Pass? <==> DefinitionKey(userId, habitId) in old(definitions)
      ensures r.Fail? ==> r.error == HabitNotFound(habitId)
      ensures r.Fail? ==> definitions == old(definitions) && monthRecords == old(monthRecords)
      ensures r.Pass? ==> definitions == old(definitions) - {DefinitionKey(userId, habitId)}
      ensures r.Pass? ==> monthRecords == WithoutHabit(old(monthRecords), userId, habitId)
    {
      var found := GetHabitDefinition(userId, habitId);
      if found.Err? {
        return Fail(found.error);
      }
      var doomed := set k | k in monthRecords && OfHabit(k, userId, habitId);
      while doomed != {}
        invariant definitions == old(definitions)
        invariant forall k :: k in monthRecords && OfHabit(k, userId, habitId) ==> k in doomed
        invariant WithoutHabit(monthRecords, userId, habitId) == WithoutHabit(old(monthRecords), userId, habitId)
        decreases doomed
      {
        var k :| k in doomed;
        monthRecords := monthRecords - {k};
        doomed := doomed - {k};
      }
      assert monthRecords == WithoutHabit(monthRecords, userId, habitId);
      definitions := definitions - {DefinitionKey(userId, habitId)};
      return Pass;
    }

    /** `AddDayToRecord(entry, day)`: up to ten attempts, each appending the
        missing day and saving; a failed save re-queries the record. Between
        the append and the save a concurrent request may change the record,
        as `env(i)` says. When the record is gone, the code keeps the day it
        has appended and nulls the version; the corrected loop starts over
        from an empty entry. */
    method AddDayToRecord(entry: HabitMonthRecordEntry, day: int, env: Environment, policy: Policy) returns (r: Outcome<Error>)
      modifies this
      ensures r == AddDayLoop(old(monthRecords), entry, day, env, 0, policy).outcome
      ensures monthRecords == AddDayLoop(old(monthRecords), entry, day, env, 0, policy).table
      ensures definitions == old(definitions)
    {
      ghost var goal := AddDayLoop(monthRecords, entry, day, env, 0, policy);
      var e := entry;
      for i := 0 to MaxAttempts
        invariant definitions == old(definitions)
        invariant AddDayLoop(monthRecords, e, day, env, i, policy).outcome == goal.outcome
        invariant AddDayLoop(monthRecords, e, day, env, i, policy).table == goal.table
      {
        if day in e.dates {
          return Pass;
        }
        ghost var before, entryBefore := monthRecords, e;
        var added := e.(dates := e.dates + [day]);
        monthRecords := Interfere(monthRecords, KeyOf(e), env(i).concurrent);
        var saved := Save(monthRecords, added, env(i).transientFailure);
        if saved.Some? {
          monthRecords := saved.value;
          assert AddDayStep(before, entryBefore, day, env(i), policy) == Finished(Pass, monthRecords);
          return Pass;
        }
        if KeyOf(added) in monthRecords {
          e := Loaded(KeyOf(added), monthRecords[KeyOf(added)]);
        } else if policy == AsWritten {
          e := added.(versionNumber := None);
        } else {
          e := added.(dates := [], versionNumber := None);
        }
        assert AddDayStep(before, entryBefore, day, env(i), policy) == Retry(monthRecords, e);
      }
      return Fail(AddDayExhausted(e.pointer.habitId, e.pointer.year, e.pointer.month, day));
    }

    /** `RemoveDayFromRecord(entry, day)`: up to ten attempts, each removing
        the day and saving the rest, or deleting the record when nothing is
        left; a failed write re-queries the record and stops if it is gone.
        The code goes on to the next attempt after a successful write (a
        save gives the entry the next version) and notices the success only
        there; the corrected loop returns at once. */
    method RemoveDayFromRecord(entry: HabitMonthRecordEntry, day: int, env: Environment, policy: Policy) returns (r: Outcome<Error>)
      modifies this
      ensures r == RemoveDayLoop(old(monthRecords), entry, day, env, 0, policy).outcome
      ensures monthRecords == RemoveDayLoop(old(monthRecords), entry, day, env, 0, policy).table
      ensures definitions == old(definitions)
    {
      ghost var goal := RemoveDayLoop(monthRecords, entry, day, env, 0, policy);
      var e := entry;
      for i := 0 to MaxAttempts
        invariant definitions == old(definitions)
        invariant RemoveDayLoop(monthRecords, e, day, env, i, policy).outcome == goal.outcome
        invariant RemoveDayLoop(monthRecords, e, day, env, i, policy).table == goal.table
      {
        if day !in e.dates {
          return Pass;
        }
        ghost var before, entryBefore := monthRecords, e;
        var removed := e.(dates := RemoveFirst(e.dates, day));
        monthRecords := Interfere(monthRecords, KeyOf(e), env(i).concurrent);
        var written: Option<Table>;
        if removed.dates != [] {
          written := Save(monthRecords, removed, env(i).transientFailure);
        } else {
          written := Delete(monthRecords, removed, env(i).transientFailure);
        }
        if written.Some? {
          monthRecords := written.value;
          if policy == Corrected {
            assert RemoveDayStep(before, entryBefore, day, env(i), policy) == Finished(Pass, monthRecords);
            return Pass;
          }
          if removed.dates != [] {
            e := removed.(versionNumber := Some(NextVersion(removed.versionNumber)));
          } else {
            e := removed;
          }
        } else {
          if KeyOf(e) !in monthRecords {
            assert RemoveDayStep(before, entryBefore, day, env(i), policy) == Finished(Pass, monthRecords);
            return Pass;
          }
          e := Loaded(KeyOf(e), monthRecords[KeyOf(e)]);
        }
        assert RemoveDayStep(before, entryBefore, day, env(i), policy) == Retry(monthRecords, e);
      }
      return Fail(RemoveDayExhausted(e.pointer.habitId, e.pointer.year, e.pointer.month, day));
    }

    /** `RegisterDoneHabit(request)`. */
    method RegisterDoneHabit(userId: string, request: DoneHabitRequest, env: Environment, policy: Policy) returns (r: Outcome<Error>)
      modifies this
      ensures r == RegisterDoneHabitSpec(old(definitions), old(monthRecords), userId, request, env, policy).outcome
      ensures monthRecords == RegisterDoneHabitSpec(old(definitions), old(monthRecords), userId, request, env, policy).table
      ensures definitions == old(definitions)
    {
      var found := GetHabitDefinition(userId, request.habitId);
      if found.Err? {
        return Fail(found.error);
      }
      var k := RecordKeyOf(userId, request);
      if k !in monthRecords {
        var newEntry := CreateHabitMonthRecordEntry(userId, request);
        monthRecords := Interfere(monthRecords, k, env(0).concurrent);
        var saved := Save(monthRecords, newEntry, env(0).transientFailure);
        if saved.None? {
          return Fail(WriteRejected);
        }
        monthRecords := saved.value;
        return Pass;
      }
      r := AddDayToRecord(Loaded(k, monthRecords[k]), request.date.day, env, policy);
    }

    /** `DeleteDoneHabit(request)`. */
    method DeleteDoneHabit(userId: string, request: DoneHabitRequest, env: Environment, policy: Policy) returns (r: Outcome<Error>)
      modifies this
      ensures r == DeleteDoneHabitSpec(old(monthRecords), userId, request, env, policy).outcome
      ensures monthRecords == DeleteDoneHabitSpec(old(monthRecords), userId, request, env, policy).table
      ensures definitions == old(definitions)
    {
      var k := RecordKeyOf(userId, request);
      if k !in monthRecords {
        return Fail(DoneRecordNotFound(request.habitId, request.date.year, request.date.month, request.date.day));
      }
      r := RemoveDayFromRecord(Loaded(k, monthRecords[k]), request.date.day, env, policy);
    }
  }
}
