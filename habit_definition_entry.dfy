/** `HabitDefinitionEntry`: a habit's owner, id and display name, and the
    public `HabitDefinition` view of it. */
module HabitDefinitions {

  datatype HabitDefinitionEntry = HabitDefinitionEntry(userId: string, habitId: string, name: string)

  datatype HabitDefinition = HabitDefinition(habitId: string, name: string)

  datatype UpdateHabitRequest = UpdateHabitRequest(habitId: string, name: string)

  /** `HabitDefinitionEntry.Create(userId, name)`; `newGuid` is the text of
      the `Guid.NewGuid()` drawn for it. */
  function Create(userId: string, name: string, newGuid: string): (e: HabitDefinitionEntry)
    ensures e.userId == userId && e.name == name && e.habitId == newGuid
  {
    HabitDefinitionEntry(userId, newGuid, name)
  }

  /** `entry.CopyWithNewValues(request)`: a new entry with the same owner. */
  function CopyWithNewValues(e: HabitDefinitionEntry, request: UpdateHabitRequest): (c: HabitDefinitionEntry)
    ensures c.userId == e.userId && c.habitId == request.habitId && c.name == request.name
  {
    HabitDefinitionEntry(e.userId, request.habitId, request.name)
  }

  /** `entry.Convert()`: drops the owner. */
  function Convert(e: HabitDefinitionEntry): (d: HabitDefinition)
    ensures d.habitId == e.habitId && d.name == e.name
  {
    HabitDefinition(e.habitId, e.name)
  }

  /** A copy made with the entry's own id is a rename: only the name differs. */
  lemma CopyWithSameIdIsRename(e: HabitDefinitionEntry, newName: string)
    ensures CopyWithNewValues(e, UpdateHabitRequest(e.habitId, newName)) == e.(name := newName)
  {
  }

  /** The public view of an updated entry is exactly what the request asked for. */
  lemma ConvertAfterCopy(e: HabitDefinitionEntry, request: UpdateHabitRequest)
    ensures Convert(CopyWithNewValues(e, request)) == HabitDefinition(request.habitId, request.name)
  {
  }
}
