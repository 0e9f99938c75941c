/**
 * The derived state of one concept row (components/learn/ConceptItem.tsx):
 * its 1-based position, whether it may be opened, where its link goes, and
 * which icon and hints it shows. Markup and styling are left out.
 */
module ConceptItem {
  import opened Wrappers
  import opened Course
  import opened ProgressStore
  import Gating

  datatype LinkTarget = IntroRoute(moduleId: int, conceptId: int) | Hash

  datatype Icon = Check | Lock | OrderNumber(n: int)

  datatype ConceptRow = ConceptRow(
    orderIndex: int,
    canAccess: bool,
    href: LinkTarget,
    preventDefault: bool,
    icon: Icon,
    showUnlockHint: bool,
    showPlay: bool)

  /** The row for the concept at 0-based `index` of module `moduleId`'s list. */
  function RowOf(overview: Option<seq<ModuleOverviewItem>>, ms: Modules, moduleId: int,
                 concept: ConceptListItem, index: nat): (row: ConceptRow)
    ensures row.orderIndex == index + 1
    ensures row.canAccess == Gating.CanAccessConceptIntro(overview, ms, moduleId, concept.id, index + 1)
    ensures row.href == (if row.canAccess then IntroRoute(moduleId, concept.id) else Hash)
    ensures row.preventDefault <==> !row.canAccess
    ensures row.icon == Check <==> concept.completed
    ensures row.icon == Lock <==> !concept.completed && !row.canAccess
    ensures row.icon.OrderNumber? ==> row.icon.n == row.orderIndex && row.canAccess
    ensures row.showUnlockHint <==> !row.canAccess
    ensures row.showPlay <==> row.canAccess && !concept.completed
  {
    var orderIndex := index + 1;
    var canAccess := Gating.CanAccessConceptIntro(overview, ms, moduleId, concept.id, orderIndex);
    ConceptRow(
      orderIndex,
      canAccess,
      if canAccess then IntroRoute(moduleId, concept.id) else Hash,
      !canAccess,
      if concept.completed then Check else if !canAccess then Lock else OrderNumber(orderIndex),
      !canAccess,
      canAccess && !concept.completed)
  }

  /**
   * For a row rendered from a listed module, the link opens exactly when the
   * theme is viewed and either the row is first or the previous row's summary
   * was viewed.
   */
  lemma {:induction false} RowOpensInSequence(overview: seq<ModuleOverviewItem>, ms: Modules, mi: int, index: nat)
    requires 0 <= mi < |overview|
    requires forall j :: 0 <= j < mi ==> overview[j].id != overview[mi].id
    requires index < |overview[mi].concepts|
    ensures var m := overview[mi];
      var row := RowOf(Some(overview), ms, m.id, m.concepts[index], index);
      row.href.IntroRoute? <==>
        IsThemeViewed(ms, m.id) && (index == 0 || IsConceptSummaryViewed(ms, m.id, m.concepts[index - 1].id))
  {
    var m := overview[mi];
    Gating.SequentialUnlock(overview, ms, mi, index, m.concepts[index].id);
  }
}

/**
 * The derived state of one module card (components/learn/ModuleItem.tsx): the
 * theme row, the reflection row and the displayed percentage, all computed
 * from the module's statistics.
 */
module ModuleItem {
  import opened Wrappers
  import opened Course
  import opened ProgressStore
  import Gating

  datatype ReflectionIcon = ReflectionCheck | ReflectionMessage | ReflectionLock

  datatype ThemeLink = ThemeRoute(moduleId: int)

  datatype ModuleCard = ModuleCard(
    themeHref: ThemeLink,
    themeUnlocked: bool,
    themeCompleted: bool,
    showThemeStart: bool,
    reflectionUnlocked: bool,
    reflectionPreventDefault: bool,
    reflectionIcon: ReflectionIcon,
    showReflectionLockHint: bool,
    displayedPercentage: int)

  /** The card for an overview module, with the statistics `useModuleStats` gives for it. */
  function CardOf(overview: Option<seq<ModuleOverviewItem>>, ms: Modules, item: ModuleOverviewItem): (card: ModuleCard)
    ensures card.themeUnlocked && card.themeHref == ThemeRoute(item.id)
    ensures card.themeCompleted == IsThemeViewed(ms, item.id)
    ensures card.showThemeStart <==> !IsThemeViewed(ms, item.id)
    ensures card.reflectionUnlocked <==>
      forall c :: c in Gating.OverviewConcepts(overview, item.id) ==> IsConceptSummaryViewed(ms, item.id, c.id)
    ensures card.reflectionPreventDefault <==> !card.reflectionUnlocked
    ensures card.reflectionIcon == ReflectionCheck <==> IsReflectionViewed(ms, item.id)
    ensures card.reflectionIcon == ReflectionMessage <==> !IsReflectionViewed(ms, item.id) && card.reflectionUnlocked
    ensures card.reflectionIcon == ReflectionLock <==> !IsReflectionViewed(ms, item.id) && !card.reflectionUnlocked
    ensures card.showReflectionLockHint <==> !card.reflectionUnlocked
    ensures 0 <= card.displayedPercentage <= 100
    ensures card.displayedPercentage == Gating.ModuleStatsOf(overview, ms, item.id).percentage
  {
    var stats := Gating.ModuleStatsOf(overview, ms, item.id);
    var unlocked := stats.completedConcepts == stats.totalConcepts;
    ModuleCard(
      ThemeRoute(item.id),
      true,
      stats.isThemeViewed,
      !stats.isThemeViewed,
      unlocked,
      !unlocked,
      if stats.isReflectionViewed then ReflectionCheck
      else if unlocked then ReflectionMessage
      else ReflectionLock,
      !unlocked,
      if stats.percentage == 0 then 0 else stats.percentage)
  }
}
