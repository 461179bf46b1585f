/**
 * The values the publish-item pipeline reads for one content item: the
 * item snapshots loaded from the source and target databases, their fields
 * and their versions. Nothing here changes state.
 */
module Types {

  /** A value that may be missing: a `null` item or version in the pipeline. */
  datatype Option<+T> = None | Some(value: T)

  type ItemId = string
  type FieldId = string
  type Language = string
  type DatabaseName = string

  /** The template definition of a field; only its "shared" flag is read here. */
  datatype TemplateField = TemplateField(isShared: bool)

  /**
   * One field of an item.
   * `definition` is None for a field that has no template definition.
   * `shared` is the field's own Shared property, which is read separately
   * from `definition.isShared`.
   * `rawValue` is the value read without standard values or clone fall-back
   * (`GetValue(false, false)`), `value` the ordinary `Value` property; both
   * are taken as given strings.
   */
  datatype Field = Field(definition: Option<TemplateField>, shared: bool, rawValue: string, value: string)

  /** The fields of an item, keyed by field id. */
  type FieldCollection = map<FieldId, Field>

  /** One version of an item: its language and its number. */
  datatype Version = Version(language: Language, number: int)

  /**
   * An item snapshot.
   * `publishingTargets` is the value of the item's publishing-targets field
   * and `listedTargets` the list of target names that field holds.
   * `versions` is every version of the item, in all languages.
   */
  datatype Item = Item(
    id: ItemId,
    language: Language,
    fields: FieldCollection,
    isClone: bool,
    publishingTargets: string,
    listedTargets: seq<string>,
    versions: seq<Version>)
}
