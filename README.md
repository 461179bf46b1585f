# DetermineAction: publish-action decision for one content item

This project models the `DetermineAction` processor of the Sitecore publish-item
pipeline (`src/Sitecore.Support.95988/DetermineAction.cs`). For one item the
processor chooses one of these outcomes:

- delete the target copy;
- publish a version of the source item;
- publish only the shared (version-independent) fields;
- abort the item with the outcome `Skipped`, child action `Skip` and one of two fixed reasons;
- set nothing.

The project has three files:

- `types.dfy` (module `Types`): item snapshots, fields, versions and an `Option` type. `Option` stands in for the source's `null` results and for its `EvaluationResult<T>` holder.
- `fields.dfy` (module `FieldComparison`): the shared-field comparison `CompareSharedFields` and its clone mode `CompareClonedFields`. Each is a loop with an early exit. Each is proved equal to a quantified predicate (`SharedFieldsEqual`, `ClonedFieldsEqual`).
- `determine_action.dfy` (module `DetermineAction`): the rest, described below.

`determine_action.dfy` holds:

- the publishing-target filter `MatchesPublishingTargets`, a nested loop proved equal to `MatchesTargets`;
- the mutable `PublishItemContext`, with its `Action`, `VersionToPublish` and abort slot;
- `Process` with `HandleSourceItemNotFound` and `HandleSourceVersionNotFound`, written as methods that assign the context.

The same decision is also written as a pure function `Decide`, which returns a `Decision`. `Apply` gives the effect of a `Decision` on the context, and `Run` is `Apply` after `Decide`. `Process` is proved to leave the context exactly as `Run` describes. The lemmas then state the outcome of every input combination on `Run`.

Three database lookups are called but not defined here: the item to publish, its version to publish and the target item. They are functions held in a `PublishHelper` value inside the context. The "publish empty items" setting is a boolean parameter.

## Model

| member | source | states |
|---|---|---|
| `FieldComparison.CompareClonedFields` | src/Sitecore.Support.95988/DetermineAction.cs:205-224 | The loop over the ids in exactly one of the two collections returns true exactly when every such id has the same `Value` on both sides, where a missing field reads as empty. It is true whenever both collections have the same ids. |
| `FieldComparison.CompareSharedFields` | src/Sitecore.Support.95988/DetermineAction.cs:166-204 | The result equals the specification. It is false if some source field shared by its definition has a raw value different from the target's same-id field. Otherwise it is true if both items have the same number of shared fields, false for a non-clone source, and `CompareClonedFields` for a clone source. |
| `FieldComparison.ClonedFieldsEqualIffUnmatchedEmpty` | src/Sitecore.Support.95988/DetermineAction.cs:210-221 | The clone comparison holds exactly when every field present on only one side has an empty value. This follows from the model's rule that a field missing from a collection reads as empty; the library's clone fall-back is not modelled (see "Left out"). |
| `FieldComparison.ClonedFieldsEqualSymmetric` | src/Sitecore.Support.95988/DetermineAction.cs:210-221 | The clone comparison gives the same answer with its arguments swapped. |
| `FieldComparison.SharedFieldsEqualAgreesOnSharedFields` | src/Sitecore.Support.95988/DetermineAction.cs:173-181 | If the comparison succeeds, every source field that its definition marks shared has the same raw value as the target's field with the same id. |
| `FieldComparison.SharedFieldsEqualNonCloneCounts` | src/Sitecore.Support.95988/DetermineAction.cs:182-197 | If the comparison succeeds for a non-clone source, both items have the same number of shared fields. |
| `FieldComparison.SharedFieldsEqualReflexive` | src/Sitecore.Support.95988/DetermineAction.cs:166-204 | An item compares equal to itself. |
| `FieldComparison.SharedFieldsEqualSymmetricOnSameSharedFields` | src/Sitecore.Support.95988/DetermineAction.cs:173-201 | Suppose two items have identical shared-field sets: the same ids are shared by definition on both sides, and the same ids carry the Shared flag. Then the comparison gives the same answer in either order. Fields that are not shared may differ. |
| `FieldComparison.SharedFieldsEqualNotSymmetric` | src/Sitecore.Support.95988/DetermineAction.cs:182-196 | Without identical shared-field sets the comparison is not symmetric. A field-less clone matches a non-clone that has one empty shared field, but the reverse comparison is false. |
| `DetermineAction.PublishItemContext.AbortPipeline` | src/Sitecore.Support.95988/DetermineAction.cs:91 | Aborting records the outcome, child action and reason. The action and the version to publish are unchanged. |
| `DetermineAction.MatchesPublishingTargets` | src/Sitecore.Support.95988/DetermineAction.cs:120-139 | The result is true exactly when the item's publishing-targets field is empty, or when some requested target equals some target the item lists. |
| `DetermineAction.Apply` | src/Sitecore.Support.95988/DetermineAction.cs:73-118 | An abort sets the abort slot and keeps the action. Any other decision leaves the abort slot alone. Only publishing a version sets `VersionToPublish`, and it sets it together with `Action = PublishVersion`. Deleting sets only `Action = DeleteTargetItem`, publishing shared fields sets only `Action = PublishSharedFields`, and setting nothing leaves the context as it was. |
| `DetermineAction.NoVersionDecision` | src/Sitecore.Support.95988/DetermineAction.cs:78-118 | With no source version, the result never publishes a version, and it deletes only when a target exists and empty items may not be published. It sets nothing exactly when three things hold: a target exists, the target has no version in another language, and empty items may be published. An abort carries one of the two fixed reasons. |
| `DetermineAction.Decide` | src/Sitecore.Support.95988/DetermineAction.cs:141-165 | If an action is already set, nothing is decided. A published version is the resolved version of a matching source item. An abort happens only when the source item exists, and it carries one of the two fixed reasons. |
| `DetermineAction.HandleSourceItemNotFound` | src/Sitecore.Support.95988/DetermineAction.cs:73-76 | Sets `Action = DeleteTargetItem` and changes nothing else. |
| `DetermineAction.HandleSourceVersionNotFound` | src/Sitecore.Support.95988/DetermineAction.cs:78-118 | Leaves the context exactly as `Apply` of `NoVersionDecision` for the target that the lookup returns. |
| `DetermineAction.Process` | src/Sitecore.Support.95988/DetermineAction.cs:141-165 | Leaves the context exactly as `Run` does. A context whose action is already set is left unchanged. |
| `DetermineAction.AlreadyDecidedIsNoOp` | src/Sitecore.Support.95988/DetermineAction.cs:144-164 | If `Action` is not `None` on entry, nothing changes: no action, no version and no abort. |
| `DetermineAction.MissingSourceDeletes` | src/Sitecore.Support.95988/DetermineAction.cs:146-150 | A missing source item gives `DeleteTargetItem`, whatever the target lookup returns. |
| `DetermineAction.UntargetedSourceDeletes` | src/Sitecore.Support.95988/DetermineAction.cs:147-150 | A source item that fails the publishing-target filter gives `DeleteTargetItem`. |
| `DetermineAction.ResolvedVersionIsPublished` | src/Sitecore.Support.95988/DetermineAction.cs:153-162 | A resolved source version gives `PublishVersion` with exactly that version attached. Replacing the target lookup does not change the outcome. |
| `DetermineAction.NoVersionNoTarget` | src/Sitecore.Support.95988/DetermineAction.cs:82-94 | With no source version and no target item, the result is `PublishSharedFields` when empty items may be published. Otherwise it is an abort (`Skipped`, `Skip`, "No publishable source version exists (and there is no target item).") with `Action` left `None`. |
| `DetermineAction.NoVersionOtherLanguageTarget` | src/Sitecore.Support.95988/DetermineAction.cs:95-111 | Suppose there is no source version and the target has a version in another language. If the shared fields compare equal, the result is an abort with "No versions to publish in '<language>' language.". Otherwise it is `PublishSharedFields`. |
| `DetermineAction.NoVersionSameLanguageTarget` | src/Sitecore.Support.95988/DetermineAction.cs:113-117 | Suppose there is no source version and a target exists with no version in another language. The result is `DeleteTargetItem` when empty items may not be published. Otherwise nothing is set and there is no abort. |
| `DetermineAction.RunKeepsContextInvariants` | src/Sitecore.Support.95988/DetermineAction.cs:141-165 | The step changes the context only when no action was set. An abort leaves `Action = None`. A `PublishVersion` action that the step sets carries a version. A context whose `PublishVersion` action carries a version still does after the step. |

## Left out

- The three data-access calls are not modelled: `GetItemToPublish`, `GetVersionToPublish` and `GetTargetItem`. They are given functions in `PublishHelper`. How the publishable version is chosen is therefore not modelled either. `GetSourceItem` and `GetSourceVersion` only forward to these calls, so they are inlined.
- `Settings.Publishing.PublishEmptyItems` is host configuration. It is the `publishEmptyItems` parameter.
- `Versions.GetVersions(true)` is not modelled. The target item's versions are a given sequence (`Item.versions`).
- `ListString` parsing of the publishing-targets field is not modelled. The listed targets are a given sequence (`Item.listedTargets`), next to the field's raw value (`Item.publishingTargets`). A null field value is the empty string.
- DetermineAction.MatchesPublishingTargets: the invariant-culture comparison `string.Equals(..., StringComparison.InvariantCulture)` is modelled as exact sequence equality. Culture-aware equivalences between different strings are not modelled.
- The field collection's indexer is modelled as a lookup that gives an empty raw value and an empty `Value` for a field the collection lacks. This is `fields2[id]` on a missing id. Everything else the library's `FieldCollection` does is not modelled.
- `GetValue(false, false)` and `.Value` are two given strings on each field. The standard-value and clone fall-back rules behind them are not modelled.
- The order in which a field collection is enumerated is not modelled. The loops take the ids in an unspecified order. Their results do not depend on that order.
- `FormatWith` is modelled as concatenating the prefix, the language name and the suffix.
- `Assert.ArgumentNotNull` checks are not modelled. Dafny's references and values are never null.
- `SetReason` has no effect in a build without `DEBUG_PUBLISHING` and is left out.
- `EvaluationResult<T>` is a local `Option<bool>`. `CompareClonedFields` always sets its value, so it returns a plain `bool`.
- `PublishOperation` and `PublishChildAction` have only the values this processor uses (`Skipped`, `Skip`).
- Pipeline orchestration, and what `AbortPipeline` does to the rest of the pipeline, are outside this processor. Only the recorded abort is modelled.
- `CompareSharedFields` is symmetric when the two items' shared-field sets agree (`SharedFieldsEqualSymmetricOnSameSharedFields`). It is asymmetric otherwise (`SharedFieldsEqualNotSymmetric`), because the per-field loop runs over the source's fields only and only the source's clone flag is read. The model follows the code, so no general symmetry is stated.
