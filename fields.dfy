/**
 * Shared-field comparison between a source item and its target copy:
 * `CompareSharedFields` and its relaxed mode for clones, `CompareClonedFields`.
 * Each loop is proved equal to a quantified specification predicate.
 */
module FieldComparison {
  import opened Types

  /** Raw value of field `id`; a field the collection lacks reads as empty. */
  function RawAt(fields: FieldCollection, id: FieldId): string {
    if id in fields then fields[id].rawValue else ""
  }

  /** `Value` of field `id`; a field the collection lacks reads as empty. */
  function ValueAt(fields: FieldCollection, id: FieldId): string {
    if id in fields then fields[id].value else ""
  }

  /** The field has a template definition and that definition marks it shared. */
  predicate SharedByDefinition(f: Field) {
    f.definition.Some? && f.definition.value.isShared
  }

  /** Source field `id` is shared by definition and its raw value differs from the target's. */
  predicate SharedMismatch(source: FieldCollection, target: FieldCollection, id: FieldId) {
    id in source && SharedByDefinition(source[id]) && source[id].rawValue != RawAt(target, id)
  }

  /** Ids of the fields whose own Shared property is set. */
  function SharedIds(fields: FieldCollection): set<FieldId> {
    set id | id in fields && fields[id].shared
  }

  /** Ids present in exactly one of the two sets. */
  function SymmetricDifference(a: set<FieldId>, b: set<FieldId>): set<FieldId> {
    (a - b) + (b - a)
  }

  /** Specification of `CompareClonedFields`: every id in only one collection reads alike on both sides. */
  predicate ClonedFieldsEqual(fields1: FieldCollection, fields2: FieldCollection) {
    forall id | id in SymmetricDifference(fields1.Keys, fields2.Keys) :: ValueAt(fields1, id) == ValueAt(fields2, id)
  }

  /** Specification of `CompareSharedFields`. */
  predicate SharedFieldsEqual(source: Item, target: Item) {
    if exists id | id in source.fields :: SharedMismatch(source.fields, target.fields, id) then false
    else if |SharedIds(source.fields)| == |SharedIds(target.fields)| then true
    else if source.isClone then ClonedFieldsEqual(source.fields, target.fields)
    else false
  }

  /**
   * Walks the ids that occur in exactly one of the two collections and stops
   * at the first whose values differ.
   */
  method CompareClonedFields(fields1: FieldCollection, fields2: FieldCollection) returns (equal: bool)
    ensures equal == ClonedFieldsEqual(fields1, fields2)
    ensures fields1.Keys == fields2.Keys ==> equal
  {
    var differing := SymmetricDifference(fields1.Keys, fields2.Keys);
    var pending := differing;
    equal := true;
    while pending != {}
      invariant pending <= differing
      invariant equal
      invariant forall id | id in differing - pending :: ValueAt(fields1, id) == ValueAt(fields2, id)
      decreases pending
    {
      var id :| id in pending;
      if ValueAt(fields1, id) != ValueAt(fields2, id) {
        equal := false;
        break;
      }
      pending := pending - {id};
    }
  }

  /**
   * Compares every source field that is shared by definition with the
   * target's field of the same id, stopping at the first difference; then
   * compares the numbers of shared fields, and for a clone with differing
   * numbers falls back to `CompareClonedFields`.
   */
  method CompareSharedFields(sourceItem: Item, targetItem: Item) returns (equal: bool)
    ensures equal == SharedFieldsEqual(sourceItem, targetItem)
  {
    var fields := sourceItem.fields;
    var fields2 := targetItem.fields;
    var result: Option<bool> := None;
    var pending := fields.Keys;
    while pending != {}
      invariant pending <= fields.Keys
      invariant result == None
      invariant forall id | id in fields.Keys - pending :: !SharedMismatch(fields, fields2, id)
      decreases pending
    {
      var id :| id in pending;
      var field := fields[id];
      if field.definition.Some? && field.definition.value.isShared && field.rawValue != RawAt(fields2, id) {
        result := Some(false);
        break;
      }
      pending := pending - {id};
    }
    if result.None? {
      var count1 := |SharedIds(fields)|;
      var count2 := |SharedIds(fields2)|;
      if count1 != count2 {
        if sourceItem.isClone {
          var result2 := CompareClonedFields(fields, fields2);
          result := Some(result2);
        } else {
          result := Some(false);
        }
      } else {
        result := Some(true);
      }
    }
    equal := result.value;
  }

  /**
   * Since a field missing on one side reads as empty, the clone comparison
   * holds exactly when every field present on only one side has an empty value.
   */
  lemma ClonedFieldsEqualIffUnmatchedEmpty(fields1: FieldCollection, fields2: FieldCollection)
    ensures ClonedFieldsEqual(fields1, fields2) <==>
      (forall id | id in fields1 && id !in fields2 :: fields1[id].value == "") &&
      (forall id | id in fields2 && id !in fields1 :: fields2[id].value == "")
  {
    if ClonedFieldsEqual(fields1, fields2) {
      forall id | id in fields1 && id !in fields2 ensures fields1[id].value == "" {
        assert id in SymmetricDifference(fields1.Keys, fields2.Keys);
      }
      forall id | id in fields2 && id !in fields1 ensures fields2[id].value == "" {
        assert id in SymmetricDifference(fields1.Keys, fields2.Keys);
      }
    }
  }

  /** The clone comparison does not depend on the order of its arguments. */
  lemma ClonedFieldsEqualSymmetric(fields1: FieldCollection, fields2: FieldCollection)
    ensures ClonedFieldsEqual(fields1, fields2) == ClonedFieldsEqual(fields2, fields1)
  {
  }

  /** When the comparison succeeds, every source field shared by definition has the target's raw value. */
  lemma SharedFieldsEqualAgreesOnSharedFields(source: Item, target: Item, id: FieldId)
    requires SharedFieldsEqual(source, target)
    requires id in source.fields && SharedByDefinition(source.fields[id])
    ensures RawAt(target.fields, id) == source.fields[id].rawValue
  {
  }

  /** For a source item that is not a clone, success also means equal numbers of shared fields. */
  lemma SharedFieldsEqualNonCloneCounts(source: Item, target: Item)
    requires SharedFieldsEqual(source, target) && !source.isClone
    ensures |SharedIds(source.fields)| == |SharedIds(target.fields)|
  {
  }

  /** An item's shared fields compare equal to themselves. */
  lemma SharedFieldsEqualReflexive(item: Item)
    ensures SharedFieldsEqual(item, item)
  {
  }

  /**
   * Two collections with identical shared-field sets: the same ids are shared
   * by definition on both sides, and the same ids carry the Shared flag.
   * Fields that are not shared may differ freely.
   */
  predicate SameSharedFields(fields1: FieldCollection, fields2: FieldCollection) {
    (forall id | id in fields1 && SharedByDefinition(fields1[id]) :: id in fields2 && SharedByDefinition(fields2[id])) &&
    (forall id | id in fields2 && SharedByDefinition(fields2[id]) :: id in fields1 && SharedByDefinition(fields1[id])) &&
    SharedIds(fields1) == SharedIds(fields2)
  }

  /** On items with identical shared-field sets, the comparison is symmetric. */
  lemma SharedFieldsEqualSymmetricOnSameSharedFields(a: Item, b: Item)
    requires SameSharedFields(a.fields, b.fields)
    ensures SharedFieldsEqual(a, b) == SharedFieldsEqual(b, a)
  {
  }

  /**
   * Without identical shared-field sets the comparison is not symmetric: a
   * clone with no fields matches a non-clone holding one empty shared field,
   * but not the other way round.
   */
  lemma SharedFieldsEqualNotSymmetric()
    ensures exists a: Item, b: Item :: SharedFieldsEqual(a, b) && !SharedFieldsEqual(b, a)
  {
    var f := Field(Some(TemplateField(true)), true, "", "");
    var a := Item("a", "en", map[], true, "", [], []);
    var b := Item("b", "en", map["f" := f], false, "", [], []);
    assert SharedIds(a.fields) == {};
    assert SharedIds(b.fields) == {"f"};
    assert ClonedFieldsEqual(a.fields, b.fields) by {
      assert SymmetricDifference(a.fields.Keys, b.fields.Keys) == {"f"};
    }
    assert SharedFieldsEqual(a, b);
    assert !SharedFieldsEqual(b, a) by {
      forall id | id in b.fields ensures !SharedMismatch(b.fields, a.fields, id) {
        assert id == "f";
      }
    }
  }
}
