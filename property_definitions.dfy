/** The named, pattern-checked slots a multi-property key converter joins
    into one key text. Only the names and their order are modelled. */
module PropertyDefinitions {

  datatype PropertyName = UserId | Type | HabitId | Year | Month

  datatype Pattern = GuidPattern | AlphabeticPattern | YearPattern | MonthPattern

  datatype PropertyDefinition = PropertyDefinition(name: PropertyName, pattern: Pattern)
}
