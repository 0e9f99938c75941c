/**
 * The lock and visibility rules of the legacy learn page. The same derivation
 * appears twice: src/pages/LearnPage.tsx tests membership in sets of completed
 * ids, src/app/page.tsx tests membership in the store's arrays. Both are
 * modelled by one derivation parameterised by the membership tests, and
 * `ArrayPageAgreesWithSetPage` shows the two pages show the same thing.
 */
module LegacyLearn {
  import opened Wrappers
  import opened Course
  import Rounding

  /** What a concept row shows. */
  datatype ConceptRow = ConceptRow(
    conceptId: int,
    isCompleted: bool,
    isLocked: bool,
    showStart: bool,
    showReview: bool,
    hintPreviousStep: bool,
    hintPreviousModule: bool,
    hintReady: bool)

  /**
   * What a module card shows: its lesson counts, the "Done!" badge, the module
   * lock, the theme row's buttons, the rounded percentage (none for a module
   * without concepts, where the page divides by zero) and its concept rows.
   */
  datatype ModuleCard = ModuleCard(
    moduleId: int,
    completedCount: nat,
    conceptCount: nat,
    allConceptsCompleted: bool,
    themeCompleted: bool,
    isModuleLocked: bool,
    showThemeStart: bool,
    showThemeReview: bool,
    displayedPercentage: Option<int>,
    rows: seq<ConceptRow>)

  predicate AllDone(concepts: seq<ConceptListItem>, has: int -> bool)
  {
    forall j :: 0 <= j < |concepts| ==> has(concepts[j].id)
  }

  /** The positions whose concept the membership test accepts. */
  function DonePositions(concepts: seq<ConceptListItem>, has: int -> bool): set<int>
  {
    set j | 0 <= j < |concepts| && has(concepts[j].id)
  }

  /** Dropping the last concept drops its position, if it was accepted, and nothing else. */
  lemma DonePositionsStep(concepts: seq<ConceptListItem>, has: int -> bool)
    requires |concepts| > 0
    ensures var n := |concepts| - 1;
      |DonePositions(concepts, has)| == |DonePositions(concepts[..n], has)| + (if has(concepts[n].id) then 1 else 0)
  {
    var n := |concepts| - 1;
    var init := concepts[..n];
    assert forall j :: 0 <= j < n ==> init[j] == concepts[j];
    assert DonePositions(concepts, has) ==
      DonePositions(init, has) + (if has(concepts[n].id) then {n} else {});
    assert n !in DonePositions(init, has);
  }

  /**
   * `concepts.filter(c => has(c.id)).length`: the number of positions whose
   * concept the membership test accepts (a repeated id counts at each position).
   */
  function CountDone(concepts: seq<ConceptListItem>, has: int -> bool): (k: nat)
    ensures k == |DonePositions(concepts, has)|
    ensures k <= |concepts|
    ensures k == |concepts| <==> AllDone(concepts, has)
    ensures k == 0 <==> forall j :: 0 <= j < |concepts| ==> !has(concepts[j].id)
  {
    if |concepts| == 0 then
      assert DonePositions(concepts, has) == {};
      0
    else
      var n := |concepts| - 1;
      var init := concepts[..n];
      var k := CountDone(init, has);
      DonePositionsStep(concepts, has);
      assert forall j :: 0 <= j < n ==> init[j] == concepts[j];
      k + (if has(concepts[n].id) then 1 else 0)
  }

  /** A module after the first is locked while some concept of the module before it is not completed. */
  predicate ModuleLocked(modules: seq<ModuleOverviewItem>, mi: int, has: int -> bool)
    requires 0 <= mi < |modules|
  {
    mi > 0 && !AllDone(modules[mi - 1].concepts, has)
  }

  /** The row of concept `j` of module `mi`. */
  function RowAt(modules: seq<ModuleOverviewItem>, mi: int, j: int, has: int -> bool, hasTheme: int -> bool): (row: ConceptRow)
    requires 0 <= mi < |modules| && 0 <= j < |modules[mi].concepts|
    ensures row.conceptId == modules[mi].concepts[j].id
  {
    var m := modules[mi];
    var isCompleted := has(m.concepts[j].id);
    var previousCompleted := if j == 0 then hasTheme(m.id) else has(m.concepts[j - 1].id);
    var isModuleLocked := ModuleLocked(modules, mi, has);
    var isLocked := (!previousCompleted && !isCompleted) || isModuleLocked;
    ConceptRow(
      m.concepts[j].id,
      isCompleted,
      isLocked,
      !isLocked && !isCompleted,
      isCompleted,
      isLocked && !isModuleLocked,
      isModuleLocked,
      !isLocked && !isCompleted)
  }

  /** `Math.round(completed / total * 100)`; none when the division is by zero. */
  function Percentage(completed: nat, total: nat): (p: Option<int>)
    requires completed <= total
    ensures p.None? <==> total == 0
    ensures p.Some? ==> 0 <= p.value <= 100
    ensures p.Some? && completed == total ==> p.value == 100
    ensures p.Some? && completed == 0 ==> p.value == 0
    ensures p.Some? ==> (2 * p.value - 1) * total <= 200 * completed < (2 * p.value + 1) * total
  {
    if total == 0 then None
    else
      Rounding.RoundPercentBounds(completed, total);
      Some(Rounding.RoundPercent(completed, total))
  }

  /** The card of module `mi`. */
  function CardAt(modules: seq<ModuleOverviewItem>, mi: int, has: int -> bool, hasTheme: int -> bool): (card: ModuleCard)
    requires 0 <= mi < |modules|
    ensures card.moduleId == modules[mi].id && card.conceptCount == |modules[mi].concepts|
    ensures card.completedCount == CountDone(modules[mi].concepts, has)
    ensures card.completedCount <= card.conceptCount
    ensures card.allConceptsCompleted <==> AllDone(modules[mi].concepts, has)
    ensures card.allConceptsCompleted <==> card.completedCount == card.conceptCount
    ensures card.displayedPercentage == Percentage(card.completedCount, card.conceptCount)
    ensures card.displayedPercentage.None? <==> card.conceptCount == 0
    ensures card.displayedPercentage.Some? ==> 0 <= card.displayedPercentage.value <= 100
    ensures card.displayedPercentage.Some? && card.allConceptsCompleted ==> card.displayedPercentage.value == 100
    ensures card.displayedPercentage.Some? && card.completedCount == 0 ==> card.displayedPercentage.value == 0
    ensures card.themeCompleted == hasTheme(modules[mi].id)
    ensures card.isModuleLocked == ModuleLocked(modules, mi, has)
    ensures card.showThemeStart <==> !card.isModuleLocked && !card.themeCompleted
    ensures card.showThemeReview <==> card.themeCompleted
    ensures |card.rows| == |modules[mi].concepts|
    ensures forall j :: 0 <= j < |card.rows| ==> card.rows[j] == RowAt(modules, mi, j, has, hasTheme)
  {
    var m := modules[mi];
    var completedCount := CountDone(m.concepts, has);
    var themeCompleted := hasTheme(m.id);
    var isModuleLocked := ModuleLocked(modules, mi, has);
    var percentage := Percentage(completedCount, |m.concepts|);
    ModuleCard(
      m.id,
      completedCount,
      |m.concepts|,
      AllDone(m.concepts, has),
      themeCompleted,
      isModuleLocked,
      !isModuleLocked && !themeCompleted,
      themeCompleted,
      percentage,
      seq(|m.concepts|, j requires 0 <= j < |m.concepts| => RowAt(modules, mi, j, has, hasTheme)))
  }

  /** All cards, in module order. */
  function Cards(modules: seq<ModuleOverviewItem>, has: int -> bool, hasTheme: int -> bool): (cards: seq<ModuleCard>)
    ensures |cards| == |modules|
    ensures forall i :: 0 <= i < |cards| ==> cards[i] == CardAt(modules, i, has, hasTheme)
  {
    seq(|modules|, i requires 0 <= i < |modules| => CardAt(modules, i, has, hasTheme))
  }

  /** src/pages/LearnPage.tsx: membership in the sets the legacy App passes down. */
  function SetLearnPage(modules: seq<ModuleOverviewItem>, completedConcepts: set<int>, completedThemes: set<int>): seq<ModuleCard>
  {
    Cards(modules, x => x in completedConcepts, x => x in completedThemes)
  }

  /** src/app/page.tsx: membership in the legacy store's arrays. */
  function ArrayLearnPage(modules: seq<ModuleOverviewItem>, completedConcepts: seq<int>, completedThemes: seq<int>): seq<ModuleCard>
  {
    Cards(modules, x => x in completedConcepts, x => x in completedThemes)
  }

  // ---------------------------------------------------------------------------
  // Properties of the derivation

  /** Counting depends only on which ids the membership test accepts. */
  lemma {:induction false} CountDoneAgree(concepts: seq<ConceptListItem>, h1: int -> bool, h2: int -> bool)
    requires forall x :: h1(x) == h2(x)
    ensures CountDone(concepts, h1) == CountDone(concepts, h2)
  {
    if |concepts| > 0 {
      CountDoneAgree(concepts[..|concepts| - 1], h1, h2);
    }
  }

  /** Two pages whose membership tests agree show the same cards. */
  lemma CardsAgree(modules: seq<ModuleOverviewItem>, h1: int -> bool, t1: int -> bool, h2: int -> bool, t2: int -> bool)
    requires forall x :: h1(x) == h2(x)
    requires forall x :: t1(x) == t2(x)
    ensures Cards(modules, h1, t1) == Cards(modules, h2, t2)
  {
    forall i | 0 <= i < |modules| ensures CardAt(modules, i, h1, t1) == CardAt(modules, i, h2, t2) {
      CountDoneAgree(modules[i].concepts, h1, h2);
      if i > 0 {
        assert AllDone(modules[i - 1].concepts, h1) == AllDone(modules[i - 1].concepts, h2);
      }
      var c1 := CardAt(modules, i, h1, t1);
      var c2 := CardAt(modules, i, h2, t2);
      assert c1.rows == c2.rows;
    }
  }

  /** The array-backed page and the set-backed page show the same cards for the same completed ids. */
  lemma ArrayPageAgreesWithSetPage(modules: seq<ModuleOverviewItem>, completedConcepts: seq<int>, completedThemes: seq<int>)
    ensures ArrayLearnPage(modules, completedConcepts, completedThemes) ==
            SetLearnPage(modules, set x | x in completedConcepts, set x | x in completedThemes)
  {
    var cs := set x | x in completedConcepts;
    var ts := set x | x in completedThemes;
    CardsAgree(modules, x => x in completedConcepts, x => x in completedThemes, x => x in cs, x => x in ts);
  }

  /**
   * The first module is never locked; every later module is locked exactly
   * when the card before it lacks its "Done!" badge.
   */
  lemma ModuleLockChain(modules: seq<ModuleOverviewItem>, has: int -> bool, hasTheme: int -> bool)
    ensures var cards := Cards(modules, has, hasTheme);
      && (|cards| > 0 ==> !cards[0].isModuleLocked)
      && forall i :: 0 < i < |cards| ==> (cards[i].isModuleLocked <==> !cards[i - 1].allConceptsCompleted)
  {
  }

  /**
   * Row states: Start shows exactly for an open, unfinished concept, Review
   * exactly for a completed one, never both; at most one hint shows, and none
   * shows exactly for a completed concept in an open module.
   */
  lemma {:induction false} RowStates(modules: seq<ModuleOverviewItem>, mi: int, j: int, has: int -> bool, hasTheme: int -> bool)
    requires 0 <= mi < |modules| && 0 <= j < |modules[mi].concepts|
    ensures var row := RowAt(modules, mi, j, has, hasTheme);
      && (row.isCompleted <==> has(modules[mi].concepts[j].id))
      && (row.showStart <==> !row.isLocked && !row.isCompleted)
      && (row.showReview <==> row.isCompleted)
      && !(row.showStart && row.showReview)
      && (row.hintPreviousModule <==> ModuleLocked(modules, mi, has))
      && (row.hintReady <==> row.showStart)
      && !(row.hintPreviousStep && row.hintPreviousModule)
      && !(row.hintReady && (row.hintPreviousStep || row.hintPreviousModule))
      && (!row.hintPreviousStep && !row.hintPreviousModule && !row.hintReady <==>
            row.isCompleted && !ModuleLocked(modules, mi, has))
  {
  }

  /**
   * Within an open module a concept is locked exactly when it is not completed
   * and its predecessor (the theme, for the first concept) is not completed
   * either; a completed concept of an open module is never locked.
   */
  lemma {:induction false} SequentialLock(modules: seq<ModuleOverviewItem>, mi: int, j: int, has: int -> bool, hasTheme: int -> bool)
    requires 0 <= mi < |modules| && 0 <= j < |modules[mi].concepts|
    requires !ModuleLocked(modules, mi, has)
    ensures var row := RowAt(modules, mi, j, has, hasTheme);
      var cs := modules[mi].concepts;
      && (row.isLocked <==> !has(cs[j].id) && !(if j == 0 then hasTheme(modules[mi].id) else has(cs[j - 1].id)))
      && (has(cs[j].id) ==> !row.isLocked)
  {
  }

  /** Every concept of a locked module is locked and shows neither Start nor the theme's Start. */
  lemma {:induction false} LockedModuleLocksAll(modules: seq<ModuleOverviewItem>, mi: int, has: int -> bool, hasTheme: int -> bool)
    requires 0 <= mi < |modules|
    requires ModuleLocked(modules, mi, has)
    ensures var card := CardAt(modules, mi, has, hasTheme);
      && !card.showThemeStart
      && forall j :: 0 <= j < |card.rows| ==> card.rows[j].isLocked && !card.rows[j].showStart
  {
  }

  /**
   * Completing more never locks anything: with more ids accepted, an open
   * module stays open and an open row stays open.
   */
  lemma {:induction false} CompletionNeverLocks(modules: seq<ModuleOverviewItem>, mi: int, j: int,
                                                 h1: int -> bool, t1: int -> bool, h2: int -> bool, t2: int -> bool)
    requires 0 <= mi < |modules| && 0 <= j < |modules[mi].concepts|
    requires forall x :: h1(x) ==> h2(x)
    requires forall x :: t1(x) ==> t2(x)
    ensures !ModuleLocked(modules, mi, h1) ==> !ModuleLocked(modules, mi, h2)
    ensures !RowAt(modules, mi, j, h1, t1).isLocked ==> !RowAt(modules, mi, j, h2, t2).isLocked
  {
  }

  /** With every concept and theme completed, every row offers Review and none is locked. */
  lemma {:induction false} AllCompletedAllOpen(modules: seq<ModuleOverviewItem>, has: int -> bool, hasTheme: int -> bool)
    requires forall i, j :: 0 <= i < |modules| && 0 <= j < |modules[i].concepts| ==> has(modules[i].concepts[j].id)
    ensures forall i, j :: 0 <= i < |modules| && 0 <= j < |modules[i].concepts| ==>
      var row := RowAt(modules, i, j, has, hasTheme);
      !row.isLocked && row.showReview && !row.showStart
  {
    forall i, j | 0 <= i < |modules| && 0 <= j < |modules[i].concepts|
      ensures !RowAt(modules, i, j, has, hasTheme).isLocked
    {
      if i > 0 {
        assert AllDone(modules[i - 1].concepts, has);
      }
    }
  }
}
