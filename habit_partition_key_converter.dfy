/** `HabitPartitionKeyConverter`: the hash key as the ordered values
    [user id, item type]. */
module HabitPartitionKeyConverter {
  import opened Wrappers
  import opened Errors
  import opened PropertyDefinitions
  import opened HabitMonthRecords

  function PropertyDefinitionList(): (defs: seq<PropertyDefinition>)
    ensures |defs| == 2
  {
    [PropertyDefinition(UserId, GuidPattern), PropertyDefinition(Type, AlphabeticPattern)]
  }

  function PropertyText(k: HabitPartitionKey, name: PropertyName): string {
    match name
    case UserId => k.userId
    case Type => k.itemType
    case _ => ""
  }

  function ToOrderedValues(k: HabitPartitionKey): (values: seq<string>)
    ensures |values| == 2
  {
    [k.userId, k.itemType]
  }

  /** `new HabitPartitionKey { UserId = values[0], ItemType = values[1] }`. */
  function ToModel(values: seq<string>): (r: Result<HabitPartitionKey, Error>)
    ensures r.Ok? <==> |values| >= 2
    ensures r.Err? ==> r.error == IndexOutOfRange
  {
    if |values| < 2 then Err(IndexOutOfRange) else Ok(HabitPartitionKey(values[0], values[1]))
  }

  /** The i-th ordered value is the text of the i-th declared property. */
  lemma OrderedValuesFollowPropertyDefinitions(k: HabitPartitionKey, i: nat)
    requires i < 2
    ensures ToOrderedValues(k)[i] == PropertyText(k, PropertyDefinitionList()[i].name)
  {
  }

  /** Key to values to key is the identity. */
  lemma PartitionKeyRoundTrip(k: HabitPartitionKey)
    ensures ToModel(ToOrderedValues(k)) == Ok(k)
  {
  }

  /** Values to key to values is the identity on two-element lists. */
  lemma OrderedValuesRoundTrip(values: seq<string>)
    requires |values| == 2
    ensures ToModel(values).Ok? && ToOrderedValues(ToModel(values).value) == values
  {
  }
}
