/**
 * The `DetermineAction` step of the publish-item pipeline: for one item it
 * chooses to delete the target copy, publish a version, publish only the
 * shared fields, abort the item with a "skipped" outcome, or set nothing.
 *
 * `Process` works on a mutable `PublishItemContext`; `Decide` is the same
 * choice as a pure function returning a `Decision`, and `Apply` says how a
 * decision changes the context. `Process` is proved to change the context
 * exactly as `Apply(Decide(...))` does, and the lemmas at the end state the
 * outcome of each input combination on `Decide`.
 */
module DetermineAction {
  import opened Types
  import opened FieldComparison

  datatype PublishAction = None | PublishVersion | PublishSharedFields | DeleteTargetItem

  /** Outcome of an aborted item; only the value this step uses is modelled. */
  datatype PublishOperation = Skipped

  /** What happens to the children of an aborted item; only the value this step uses is modelled. */
  datatype PublishChildAction = Skip

  datatype AbortInfo = AbortInfo(operation: PublishOperation, childAction: PublishChildAction, reason: string)

  const NoSourceVersionReason: string := "No publishable source version exists (and there is no target item)."

  function NoVersionsInLanguageReason(language: Language): string {
    "No versions to publish in '" + language + "' language."
  }

  datatype PublishOptions = PublishOptions(targetDatabase: DatabaseName, publishingTargets: seq<string>)

  /**
   * The database lookups the step calls but does not define: the source item
   * to publish, the version of it to publish into a target database, and the
   * target copy of an item.
   */
  datatype PublishHelper = PublishHelper(
    getItemToPublish: ItemId -> Option<Item>,
    getVersionToPublish: (Item, DatabaseName) -> Option<Version>,
    getTargetItem: ItemId -> Option<Item>)

  /** The part of the context this step writes. */
  datatype ContextState = ContextState(action: PublishAction, versionToPublish: Option<Version>, abort: Option<AbortInfo>)

  class PublishItemContext {
    const itemId: ItemId
    const helper: PublishHelper
    const options: PublishOptions
    var action: PublishAction
    var versionToPublish: Option<Version>
    var abort: Option<AbortInfo>

    constructor (itemId: ItemId, helper: PublishHelper, options: PublishOptions, action: PublishAction)
      ensures this.itemId == itemId && this.helper == helper && this.options == options
      ensures State() == ContextState(action, Option.None, Option.None)
    {
      this.itemId := itemId;
      this.helper := helper;
      this.options := options;
      this.action := action;
      this.versionToPublish := Option.None;
      this.abort := Option.None;
    }

    function State(): ContextState
      reads this
    {
      ContextState(action, versionToPublish, abort)
    }

    /** Stops the pipeline for this item, recording its outcome; the action is left as it is. */
    method AbortPipeline(operation: PublishOperation, childAction: PublishChildAction, reason: string)
      modifies this
      ensures State() == old(State()).(abort := Option.Some(AbortInfo(operation, childAction, reason)))
    {
      abort := Option.Some(AbortInfo(operation, childAction, reason));
    }
  }

  /**
   * Specification of `MatchesPublishingTargets`: an item with an empty
   * publishing-targets field may go to every target; otherwise some requested
   * target must equal some target the item lists.
   */
  predicate MatchesTargets(item: Item, requested: seq<string>) {
    item.publishingTargets == "" ||
    exists i, j | 0 <= i < |requested| && 0 <= j < |item.listedTargets| :: requested[i] == item.listedTargets[j]
  }

  method MatchesPublishingTargets(item: Item, context: PublishItemContext) returns (matches: bool)
    ensures matches == MatchesTargets(item, context.options.publishingTargets)
  {
    if item.publishingTargets == "" {
      return true;
    }
    var requested := context.options.publishingTargets;
    var listed := item.listedTargets;
    for i := 0 to |requested|
      invariant forall k, j | 0 <= k < i && 0 <= j < |listed| :: requested[k] != listed[j]
    {
      for j := 0 to |listed|
        invariant forall m | 0 <= m < j :: requested[i] != listed[m]
      {
        if requested[i] == listed[j] {
          return true;
        }
      }
    }
    return false;
  }

  /** What one run of the step does to the context. */
  datatype Decision =
    | Delete
    | PublishVersionOf(version: Version)
    | PublishShared
    | Abort(reason: string)
    | NothingSet

  /** The context after `d`: an abort keeps the action, every other decision keeps the abort slot. */
  function Apply(s: ContextState, d: Decision): (t: ContextState)
    ensures d.Abort? ==> t.action == s.action && t.abort == Option.Some(AbortInfo(Skipped, Skip, d.reason))
    ensures !d.Abort? ==> t.abort == s.abort
    ensures d.PublishVersionOf? ==> t.action == PublishVersion && t.versionToPublish == Option.Some(d.version)
    ensures !d.PublishVersionOf? ==> t.versionToPublish == s.versionToPublish
    ensures d.Delete? ==> t == s.(action := DeleteTargetItem)
    ensures d.PublishShared? ==> t == s.(action := PublishSharedFields)
    ensures d.NothingSet? ==> t == s
  {
    match d
    case Delete => s.(action := DeleteTargetItem)
    case PublishVersionOf(v) => s.(action := PublishVersion, versionToPublish := Option.Some(v))
    case PublishShared => s.(action := PublishSharedFields)
    case Abort(reason) => s.(abort := Option.Some(AbortInfo(Skipped, Skip, reason)))
    case NothingSet => s
  }

  /** The target has a version in a language other than `language`. */
  predicate HasOtherLanguageVersion(versions: seq<Version>, language: Language) {
    exists k | 0 <= k < |versions| :: versions[k].language != language
  }

  /** The decision when the source item exists but has no version to publish. */
  function NoVersionDecision(sourceItem: Item, targetItem: Option<Item>, publishEmptyItems: bool): (d: Decision)
    ensures !d.PublishVersionOf?
    ensures d.Delete? ==> targetItem.Some? && !publishEmptyItems
    ensures d.NothingSet? <==>
      targetItem.Some? && !HasOtherLanguageVersion(targetItem.value.versions, sourceItem.language) && publishEmptyItems
    ensures d.Abort? ==>
      d.reason == NoSourceVersionReason || d.reason == NoVersionsInLanguageReason(sourceItem.language)
  {
    match targetItem
    case None => if publishEmptyItems then PublishShared else Abort(NoSourceVersionReason)
    case Some(target) =>
      if HasOtherLanguageVersion(target.versions, sourceItem.language) then
        if SharedFieldsEqual(sourceItem, target) then Abort(NoVersionsInLanguageReason(sourceItem.language))
        else PublishShared
      else if !publishEmptyItems then Delete
      else NothingSet
  }

  /** The decision of one run of the step, given the action already in the context. */
  function Decide(action: PublishAction, itemId: ItemId, helper: PublishHelper, options: PublishOptions,
                  publishEmptyItems: bool): (d: Decision)
    ensures action != PublishAction.None ==> d == NothingSet
    ensures d.PublishVersionOf? ==>
      var source := helper.getItemToPublish(itemId);
      source.Some? && MatchesTargets(source.value, options.publishingTargets) &&
      helper.getVersionToPublish(source.value, options.targetDatabase) == Option.Some(d.version)
    ensures d.Abort? ==>
      var source := helper.getItemToPublish(itemId);
      source.Some? && (d.reason == NoSourceVersionReason || d.reason == NoVersionsInLanguageReason(source.value.language))
  {
    if action != PublishAction.None then NothingSet
    else match helper.getItemToPublish(itemId)
      case None => Delete
      case Some(source) =>
        if !MatchesTargets(source, options.publishingTargets) then Delete
        else match helper.getVersionToPublish(source, options.targetDatabase)
          case Some(version) => PublishVersionOf(version)
          case None => NoVersionDecision(source, helper.getTargetItem(source.id), publishEmptyItems)
  }

  /** The context after one run of the step on context state `s`. */
  function Run(s: ContextState, itemId: ItemId, helper: PublishHelper, options: PublishOptions,
               publishEmptyItems: bool): ContextState
  {
    Apply(s, Decide(s.action, itemId, helper, options, publishEmptyItems))
  }

  method HandleSourceItemNotFound(context: PublishItemContext)
    modifies context
    ensures context.State() == Apply(old(context.State()), Delete)
  {
    context.action := DeleteTargetItem;
  }

  method HandleSourceVersionNotFound(sourceItem: Item, context: PublishItemContext, publishEmptyItems: bool)
    modifies context
    ensures context.State() ==
      Apply(old(context.State()), NoVersionDecision(sourceItem, context.helper.getTargetItem(sourceItem.id), publishEmptyItems))
  {
    var targetItem := context.helper.getTargetItem(sourceItem.id);
    if targetItem.None? {
      if publishEmptyItems {
        context.action := PublishSharedFields;
      } else {
        context.AbortPipeline(Skipped, Skip, NoSourceVersionReason);
      }
      return;
    }
    var versions := targetItem.value.versions;
    if |versions| > 0 {
      if exists k | 0 <= k < |versions| :: versions[k].language != sourceItem.language {
        var equal := CompareSharedFields(sourceItem, targetItem.value);
        if equal {
          context.AbortPipeline(Skipped, Skip, NoVersionsInLanguageReason(sourceItem.language));
          return;
        }
        context.action := PublishSharedFields;
        return;
      }
    }
    if !publishEmptyItems {
      context.action := DeleteTargetItem;
      return;
    }
  }

  method Process(context: PublishItemContext, publishEmptyItems: bool)
    modifies context
    ensures context.State() ==
      Run(old(context.State()), context.itemId, context.helper, context.options, publishEmptyItems)
    ensures old(context.action) != PublishAction.None ==> unchanged(context)
  {
    if context.action == PublishAction.None {
      var sourceItem := context.helper.getItemToPublish(context.itemId);
      var matches := false;
      if sourceItem.Some? {
        matches := MatchesPublishingTargets(sourceItem.value, context);
      }
      if sourceItem.None? || !matches {
        HandleSourceItemNotFound(context);
      } else {
        var sourceVersion := context.helper.getVersionToPublish(sourceItem.value, context.options.targetDatabase);
        if sourceVersion.None? {
          HandleSourceVersionNotFound(sourceItem.value, context, publishEmptyItems);
        } else {
          context.action := PublishVersion;
          context.versionToPublish := sourceVersion;
        }
      }
    }
  }

  /** Once an earlier step has chosen an action, the step changes nothing. */
  lemma AlreadyDecidedIsNoOp(s: ContextState, itemId: ItemId, helper: PublishHelper, options: PublishOptions,
                             publishEmptyItems: bool)
    requires s.action != PublishAction.None
    ensures Run(s, itemId, helper, options, publishEmptyItems) == s
  {
  }

  /** A missing source item deletes the target copy, whatever the target lookup returns. */
  lemma MissingSourceDeletes(s: ContextState, itemId: ItemId, helper: PublishHelper, options: PublishOptions,
                             publishEmptyItems: bool)
    requires s.action == PublishAction.None
    requires helper.getItemToPublish(itemId).None?
    ensures Run(s, itemId, helper, options, publishEmptyItems) == s.(action := DeleteTargetItem)
  {
  }

  /** A source item that does not match the requested publishing targets deletes the target copy. */
  lemma UntargetedSourceDeletes(s: ContextState, itemId: ItemId, helper: PublishHelper, options: PublishOptions,
                                publishEmptyItems: bool)
    requires s.action == PublishAction.None
    requires helper.getItemToPublish(itemId).Some?
    requires !MatchesTargets(helper.getItemToPublish(itemId).value, options.publishingTargets)
    ensures Run(s, itemId, helper, options, publishEmptyItems) == s.(action := DeleteTargetItem)
  {
  }

  /**
   * A resolved source version is published as it is, and the outcome does not
   * depend on the target lookup (so the field comparison is never reached).
   */
  lemma ResolvedVersionIsPublished(s: ContextState, itemId: ItemId, helper: PublishHelper, options: PublishOptions,
                                   publishEmptyItems: bool, otherTargetLookup: ItemId -> Option<Item>)
    requires s.action == PublishAction.None
    requires helper.getItemToPublish(itemId).Some?
    requires MatchesTargets(helper.getItemToPublish(itemId).value, options.publishingTargets)
    requires helper.getVersionToPublish(helper.getItemToPublish(itemId).value, options.targetDatabase).Some?
    ensures var v := helper.getVersionToPublish(helper.getItemToPublish(itemId).value, options.targetDatabase).value;
      Run(s, itemId, helper, options, publishEmptyItems) == s.(action := PublishVersion, versionToPublish := Option.Some(v))
    ensures Run(s, itemId, helper.(getTargetItem := otherTargetLookup), options, publishEmptyItems)
         == Run(s, itemId, helper, options, publishEmptyItems)
  {
  }

  /** The inputs of the no-version branch: a matching source item with no version to publish. */
  predicate NoSourceVersion(itemId: ItemId, helper: PublishHelper, options: PublishOptions) {
    var source := helper.getItemToPublish(itemId);
    source.Some? && MatchesTargets(source.value, options.publishingTargets) &&
    helper.getVersionToPublish(source.value, options.targetDatabase).None?
  }

  /** No version and no target item: publish the shared fields if empty items may be published, else skip. */
  lemma NoVersionNoTarget(s: ContextState, itemId: ItemId, helper: PublishHelper, options: PublishOptions,
                          publishEmptyItems: bool)
    requires s.action == PublishAction.None
    requires NoSourceVersion(itemId, helper, options)
    requires helper.getTargetItem(helper.getItemToPublish(itemId).value.id).None?
    ensures Run(s, itemId, helper, options, publishEmptyItems) ==
      if publishEmptyItems then s.(action := PublishSharedFields)
      else s.(abort := Option.Some(AbortInfo(Skipped, Skip, NoSourceVersionReason)))
  {
  }

  /**
   * No version, and the target has a version in another language: skip with
   * the language in the reason when the shared fields already agree, else
   * publish the shared fields.
   */
  lemma NoVersionOtherLanguageTarget(s: ContextState, itemId: ItemId, helper: PublishHelper, options: PublishOptions,
                                     publishEmptyItems: bool, k: nat)
    requires s.action == PublishAction.None
    requires NoSourceVersion(itemId, helper, options)
    requires var source := helper.getItemToPublish(itemId).value;
      var target := helper.getTargetItem(source.id);
      target.Some? && k < |target.value.versions| && target.value.versions[k].language != source.language
    ensures var source := helper.getItemToPublish(itemId).value;
      var target := helper.getTargetItem(source.id).value;
      Run(s, itemId, helper, options, publishEmptyItems) ==
        if SharedFieldsEqual(source, target)
        then s.(abort := Option.Some(AbortInfo(Skipped, Skip, NoVersionsInLanguageReason(source.language))))
        else s.(action := PublishSharedFields)
  {
  }

  /**
   * No version, and every version of the target is in the source's language
   * (or there is none): delete the target copy unless empty items may be
   * published, in which case nothing is set.
   */
  lemma NoVersionSameLanguageTarget(s: ContextState, itemId: ItemId, helper: PublishHelper, options: PublishOptions,
                                    publishEmptyItems: bool)
    requires s.action == PublishAction.None
    requires NoSourceVersion(itemId, helper, options)
    requires var source := helper.getItemToPublish(itemId).value;
      var target := helper.getTargetItem(source.id);
      target.Some? && forall k | 0 <= k < |target.value.versions| :: target.value.versions[k].language == source.language
    ensures Run(s, itemId, helper, options, publishEmptyItems) ==
      if publishEmptyItems then s else s.(action := DeleteTargetItem)
  {
  }

  /** A context is consistent when a PublishVersion action carries a version. */
  predicate VersionAttached(s: ContextState) {
    s.action == PublishVersion ==> s.versionToPublish.Some?
  }

  /**
   * The step writes the action at most once and keeps it consistent: it
   * changes the action or the abort slot only when no action was set, an
   * abort leaves the action None, a PublishVersion it sets carries a version,
   * and a consistent context stays consistent.
   */
  lemma RunKeepsContextInvariants(s: ContextState, itemId: ItemId, helper: PublishHelper, options: PublishOptions,
                                  publishEmptyItems: bool)
    ensures var t := Run(s, itemId, helper, options, publishEmptyItems);
      (t != s ==> s.action == PublishAction.None) &&
      (t.abort != s.abort ==> t.action == PublishAction.None) &&
      (t.action == PublishVersion && s.action == PublishAction.None ==> t.versionToPublish.Some?) &&
      (VersionAttached(s) ==> VersionAttached(t))
  {
  }
}
