/**
 * The gating evaluator of the current front end (lib/hooks/useGating.ts): pure
 * functions of the loaded overview (absent while loading) and the progress
 * store's state.
 *
 * A concept's position is 1-based (`orderIndex`); its predecessor sits at
 * array index `orderIndex - 2` of the module's concept list.
 */
module Gating {
  import opened Wrappers
  import opened Course
  import opened ProgressStore
  import Rounding

  datatype ModuleStats = ModuleStats(
    percentage: int,
    isThemeViewed: bool,
    isReflectionViewed: bool,
    completedConcepts: nat,
    totalConcepts: nat,
    isCompleted: bool)

  /** The positions of the list whose concept has its summary viewed in module `moduleId`. */
  function ViewedPositions(ms: Modules, moduleId: int, concepts: seq<ConceptListItem>): set<int>
  {
    set i | 0 <= i < |concepts| && IsConceptSummaryViewed(ms, moduleId, concepts[i].id)
  }

  /** Dropping the last concept drops its position, if it was viewed, and nothing else. */
  lemma ViewedPositionsStep(ms: Modules, moduleId: int, concepts: seq<ConceptListItem>)
    requires |concepts| > 0
    ensures var n := |concepts| - 1;
      |ViewedPositions(ms, moduleId, concepts)| == |ViewedPositions(ms, moduleId, concepts[..n])| +
        (if IsConceptSummaryViewed(ms, moduleId, concepts[n].id) then 1 else 0)
  {
    var n := |concepts| - 1;
    var init := concepts[..n];
    var all, before := ViewedPositions(ms, moduleId, concepts), ViewedPositions(ms, moduleId, init);
    var tail: set<int> := if IsConceptSummaryViewed(ms, moduleId, concepts[n].id) then {n} else {};
    assert forall i :: 0 <= i < n ==> init[i] == concepts[i];
    assert forall i :: i in all <==> i in before || i in tail;
    assert all == before + tail;
    assert n !in before;
  }

  /**
   * How many of the listed concepts have their summary viewed in module
   * `moduleId`: the number of positions of the list whose concept is viewed,
   * as `filter(...).length` counts them.
   */
  function CountSummaryViewed(ms: Modules, moduleId: int, concepts: seq<ConceptListItem>): (k: nat)
    ensures k == |ViewedPositions(ms, moduleId, concepts)|
    ensures k <= |concepts|
    ensures k == |concepts| <==>
      forall i :: 0 <= i < |concepts| ==> IsConceptSummaryViewed(ms, moduleId, concepts[i].id)
    ensures k == 0 <==>
      forall i :: 0 <= i < |concepts| ==> !IsConceptSummaryViewed(ms, moduleId, concepts[i].id)
  {
    if |concepts| == 0 then
      assert ViewedPositions(ms, moduleId, concepts) == {};
      0
    else
      var n := |concepts| - 1;
      var init := concepts[..n];
      var k := CountSummaryViewed(ms, moduleId, init);
      ViewedPositionsStep(ms, moduleId, concepts);
      assert forall i :: 0 <= i < n ==> init[i] == concepts[i];
      k + (if IsConceptSummaryViewed(ms, moduleId, concepts[n].id) then 1 else 0)
  }

  /** The concepts of a module in the overview, or none when it is not listed or not loaded. */
  function OverviewConcepts(overview: Option<seq<ModuleOverviewItem>>, moduleId: int): (cs: seq<ConceptListItem>)
    ensures overview.None? ==> cs == []
    ensures overview.Some? && (forall i :: 0 <= i < |overview.value| ==> overview.value[i].id != moduleId) ==> cs == []
    ensures cs != [] ==> exists i :: 0 <= i < |overview.value| && overview.value[i].id == moduleId && overview.value[i].concepts == cs
  {
    if overview.None? then []
    else match FindModule(overview.value, moduleId)
      case None => []
      case Some(m) => m.concepts
  }

  /**
   * `useModuleStats`: totals come from the overview's concept list, completion
   * from the store's summary flags over those concepts only; the flags are the
   * store's getters.
   */
  function ModuleStatsOf(overview: Option<seq<ModuleOverviewItem>>, ms: Modules, moduleId: int): (s: ModuleStats)
    ensures s.totalConcepts == |OverviewConcepts(overview, moduleId)|
    ensures s.completedConcepts == CountSummaryViewed(ms, moduleId, OverviewConcepts(overview, moduleId))
    ensures s.completedConcepts <= s.totalConcepts
    ensures s.completedConcepts == s.totalConcepts <==>
      forall c :: c in OverviewConcepts(overview, moduleId) ==> IsConceptSummaryViewed(ms, moduleId, c.id)
    ensures 0 <= s.percentage <= 100
    ensures s.totalConcepts == 0 ==> s.percentage == 0
    ensures s.totalConcepts > 0 ==>
      (2 * s.percentage - 1) * s.totalConcepts <= 200 * s.completedConcepts < (2 * s.percentage + 1) * s.totalConcepts
    ensures s.isThemeViewed == IsThemeViewed(ms, moduleId)
    ensures s.isReflectionViewed == IsReflectionViewed(ms, moduleId)
    ensures s.isCompleted == IsModuleCompleted(ms, moduleId)
  {
    var concepts := OverviewConcepts(overview, moduleId);
    var total := |concepts|;
    var completed := CountSummaryViewed(ms, moduleId, concepts);
    var percentage := if total > 0 then Rounding.RoundPercent(completed, total) else 0;
    assert 0 <= percentage <= 100 by {
      if total > 0 { Rounding.RoundPercentBounds(completed, total); }
    }
    assert completed == total <==>
      forall c :: c in concepts ==> IsConceptSummaryViewed(ms, moduleId, c.id) by {
      if forall c :: c in concepts ==> IsConceptSummaryViewed(ms, moduleId, c.id) {
        assert forall i :: 0 <= i < |concepts| ==> concepts[i] in concepts;
      }
    }
    ModuleStats(percentage, IsThemeViewed(ms, moduleId), IsReflectionViewed(ms, moduleId),
                completed, total, IsModuleCompleted(ms, moduleId))
  }

  /** `useCanAccessConceptIntro`; the concept id is accepted but not consulted, as in the source. */
  function CanAccessConceptIntro(overview: Option<seq<ModuleOverviewItem>>, ms: Modules,
                                 moduleId: int, conceptId: int, orderIndex: int): (ok: bool)
    ensures ok ==> overview.Some? && IsThemeViewed(ms, moduleId)
    ensures overview.Some? && IsThemeViewed(ms, moduleId) && orderIndex == 1 ==> ok
    ensures ok && orderIndex != 1 ==> 2 <= orderIndex && exists c :: c in OverviewConcepts(overview, moduleId) && IsConceptSummaryViewed(ms, moduleId, c.id)
  {
    if overview.None? then false
    else if !IsThemeViewed(ms, moduleId) then false
    else if orderIndex == 1 then true
    else match FindModule(overview.value, moduleId)
      case None => false
      case Some(m) =>
        var prev := orderIndex - 2;
        if prev < 0 || prev >= |m.concepts| then false
        else IsConceptSummaryViewed(ms, moduleId, m.concepts[prev].id)
  }

  /** Access is closed while the overview is not loaded and while the theme is not viewed. */
  lemma FailClosed(overview: Option<seq<ModuleOverviewItem>>, ms: Modules, moduleId: int, conceptId: int, orderIndex: int)
    requires overview.None? || !IsThemeViewed(ms, moduleId)
    ensures !CanAccessConceptIntro(overview, ms, moduleId, conceptId, orderIndex)
  {
  }

  /**
   * The complete rule: access needs the overview and the theme; position 1 then
   * opens even for a module missing from the overview; any other position needs
   * the module listed, the predecessor index in range (so positions below 1 are
   * closed) and the predecessor's summary viewed.
   */
  lemma CanAccessRule(overview: Option<seq<ModuleOverviewItem>>, ms: Modules, moduleId: int, conceptId: int, orderIndex: int)
    ensures CanAccessConceptIntro(overview, ms, moduleId, conceptId, orderIndex) <==>
      && overview.Some?
      && IsThemeViewed(ms, moduleId)
      && (|| orderIndex == 1
          || (&& 2 <= orderIndex <= |OverviewConcepts(overview, moduleId)| + 1
              && IsConceptSummaryViewed(ms, moduleId, OverviewConcepts(overview, moduleId)[orderIndex - 2].id)))
  {
  }

  /**
   * Sequential unlock over a listed module, with `orderIndex = index + 1` as the
   * concept list sets it: the first concept opens with the theme, every later
   * one with its predecessor's summary.
   */
  lemma {:induction false} SequentialUnlock(overview: seq<ModuleOverviewItem>, ms: Modules, mi: int, index: int, conceptId: int)
    requires 0 <= mi < |overview|
    requires forall j :: 0 <= j < mi ==> overview[j].id != overview[mi].id
    requires 0 <= index < |overview[mi].concepts|
    ensures var m := overview[mi];
      CanAccessConceptIntro(Some(overview), ms, m.id, conceptId, index + 1) <==>
        IsThemeViewed(ms, m.id) &&
        (index == 0 || IsConceptSummaryViewed(ms, m.id, m.concepts[index - 1].id))
  {
    FindModuleAt(overview, mi);
  }

  /** Viewing the theme opens the first concept of a module once the overview is loaded. */
  lemma {:induction false} ThemeGate(overview: seq<ModuleOverviewItem>, ms: Modules, moduleId: int, conceptId: int)
    ensures !IsThemeViewed(ms, moduleId) ==> !CanAccessConceptIntro(Some(overview), ms, moduleId, conceptId, 1)
    ensures CanAccessConceptIntro(Some(overview), ThemeViewed(ms, moduleId), moduleId, conceptId, 1)
  {
  }

  /**
   * Viewing the summary of the concept at `index` opens the concept after it,
   * provided the theme is viewed and the concept's entry exists (the summary
   * action does nothing otherwise).
   */
  lemma {:induction false} SummaryUnlocksNext(overview: seq<ModuleOverviewItem>, ms: Modules, mi: int, index: int, nextId: int)
    requires 0 <= mi < |overview|
    requires forall j :: 0 <= j < mi ==> overview[j].id != overview[mi].id
    requires 0 <= index < |overview[mi].concepts| - 1
    requires IsThemeViewed(ms, overview[mi].id)
    requires GetConceptProgress(ms, overview[mi].id, overview[mi].concepts[index].id).Some?
    ensures var m := overview[mi];
      CanAccessConceptIntro(Some(overview), ConceptSummaryViewed(ms, m.id, m.concepts[index].id), m.id, nextId, index + 2)
  {
    var m := overview[mi];
    var r := ConceptSummaryViewed(ms, m.id, m.concepts[index].id);
    ConceptActionsKeepOtherFlags(ms, m.id, m.concepts[index].id, m.id, m.concepts[index].id);
    assert IsThemeViewed(r, m.id);
    SequentialUnlock(overview, r, mi, index + 1, nextId);
  }

  /**
   * The reflection rule (completed equals total) holds exactly when every listed
   * concept of the module has its summary viewed, whatever the order they were
   * viewed in; for a module missing from the overview, or no overview, both
   * counts are 0 and the rule holds.
   */
  lemma ReflectionRule(overview: Option<seq<ModuleOverviewItem>>, ms: Modules, moduleId: int)
    ensures var s := ModuleStatsOf(overview, ms, moduleId);
      s.completedConcepts == s.totalConcepts <==>
        forall c :: c in OverviewConcepts(overview, moduleId) ==> IsConceptSummaryViewed(ms, moduleId, c.id)
    ensures overview.None? ==>
      var s := ModuleStatsOf(overview, ms, moduleId);
      s.completedConcepts == s.totalConcepts == 0
  {
  }

  /** The concept entry of the walk-through once intro, practice and summary are done. */
  function Done(conceptId: int): ConceptProgress
  {
    ConceptProgress(conceptId, false, true, true, true, map[], 0)
  }

  /** The store states of the walk-through of module 1, concept 10 then concept 11. */
  lemma {:induction false} ScenarioStates()
    ensures ThemeViewed(map[], 1) == map[1 := ModuleProgress(1, true, false, map[], false)]
    ensures var s1 := map[1 := ModuleProgress(1, true, false, map[], false)];
      ConceptSummaryViewed(ConceptPracticeCompleted(ConceptIntroCompleted(s1, 1, 10), 1, 10), 1, 10)
        == map[1 := ModuleProgress(1, true, false, map[10 := Done(10)], false)]
    ensures var s2 := map[1 := ModuleProgress(1, true, false, map[10 := Done(10)], false)];
      ConceptSummaryViewed(ConceptPracticeCompleted(ConceptIntroCompleted(s2, 1, 11), 1, 11), 1, 11)
        == map[1 := ModuleProgress(1, true, false, map[10 := Done(10), 11 := Done(11)], false)]
  {
    var s1 := map[1 := ModuleProgress(1, true, false, map[], false)];
    var a := ConceptIntroCompleted(s1, 1, 10);
    assert a == map[1 := ModuleProgress(1, true, false, map[10 := ConceptProgress(10, false, true, false, false, map[], 0)], false)];
    var pa := ConceptProgress(10, false, true, true, false, map[], 0);
    assert a[1].concepts[10 := pa] == map[10 := pa];
    var b := ConceptPracticeCompleted(a, 1, 10);
    assert b == a[1 := a[1].(concepts := map[10 := pa])];
    assert b[1].concepts[10 := Done(10)] == map[10 := Done(10)];
    assert b == map[1 := ModuleProgress(1, true, false, map[10 := ConceptProgress(10, false, true, true, false, map[], 0)], false)];
    var s2 := map[1 := ModuleProgress(1, true, false, map[10 := Done(10)], false)];
    var c := ConceptIntroCompleted(s2, 1, 11);
    assert c == map[1 := ModuleProgress(1, true, false, map[10 := Done(10), 11 := ConceptProgress(11, false, true, false, false, map[], 0)], false)];
    var pc := ConceptProgress(11, false, true, true, false, map[], 0);
    assert c[1].concepts[11 := pc] == map[10 := Done(10), 11 := pc];
    var d := ConceptPracticeCompleted(c, 1, 11);
    assert d == c[1 := c[1].(concepts := map[10 := Done(10), 11 := pc])];
    assert d[1].concepts[11 := Done(11)] == map[10 := Done(10), 11 := Done(11)];
    assert d == map[1 := ModuleProgress(1, true, false, map[10 := Done(10), 11 := ConceptProgress(11, false, true, true, false, map[], 0)], false)];
  }

  /**
   * The walk-through of module 1 with concepts 10 and 11: the first concept
   * opens with the theme, the second with the first's summary; the completion
   * percentage goes 50 then 100 and the reflection rule holds at the end.
   */
  lemma {:induction false} TwoConceptScenario()
    ensures
      var ov := Some([ModuleOverviewItem(1, "M", 0, [ConceptListItem(10, "a", false), ConceptListItem(11, "b", false)])]);
      var s0: Modules := map[];
      var s1 := ThemeViewed(s0, 1);
      var s2 := ConceptSummaryViewed(ConceptPracticeCompleted(ConceptIntroCompleted(s1, 1, 10), 1, 10), 1, 10);
      var s3 := ConceptSummaryViewed(ConceptPracticeCompleted(ConceptIntroCompleted(s2, 1, 11), 1, 11), 1, 11);
      && !CanAccessConceptIntro(ov, s0, 1, 10, 1)
      && CanAccessConceptIntro(ov, s1, 1, 10, 1)
      && !CanAccessConceptIntro(ov, s1, 1, 11, 2)
      && CanAccessConceptIntro(ov, s2, 1, 11, 2)
      && ConceptCompletionPercentage(s2, 1, 2) == 50
      && ModuleStatsOf(ov, s2, 1).completedConcepts != ModuleStatsOf(ov, s2, 1).totalConcepts
      && ModuleStatsOf(ov, s3, 1).completedConcepts == ModuleStatsOf(ov, s3, 1).totalConcepts
      && ConceptCompletionPercentage(s3, 1, 2) == 100
  {
    ScenarioStates();
    var ov := [ModuleOverviewItem(1, "M", 0, [ConceptListItem(10, "a", false), ConceptListItem(11, "b", false)])];
    var s2 := map[1 := ModuleProgress(1, true, false, map[10 := Done(10)], false)];
    var s3 := map[1 := ModuleProgress(1, true, false, map[10 := Done(10), 11 := Done(11)], false)];
    FindModuleAt(ov, 0);
    assert SummaryViewedIds(s2[1]) == {10};
    assert SummaryViewedIds(s3[1]) == {10, 11};
    Rounding.RoundPercentUnique(1, 2, 50);
    Rounding.RoundPercentUnique(2, 2, 100);
    assert IsConceptSummaryViewed(s3, 1, 10) && IsConceptSummaryViewed(s3, 1, 11);
    assert !IsConceptSummaryViewed(s2, 1, 11);
  }
}
