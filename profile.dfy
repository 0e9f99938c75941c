/**
 * The statistics of the profile page (app/profile/page.tsx): totals over the
 * overview, completion from the progress store, the overall percentage and the
 * two trophies tied to the first two overview modules.
 */
module Profile {
  import opened Wrappers
  import opened Course
  import opened ProgressStore
  import Rounding
  import Collections

  /** What a locked trophy shows: viewed summaries of its module out of a lesson count. */
  datatype LockedProgress = LockedProgress(viewed: nat, outOf: nat)

  datatype Trophy = Trophy(moduleId: Option<int>, earned: bool, locked: Option<LockedProgress>)

  datatype ProfileView =
    | Placeholder
    | Stats(
        totalConcepts: nat,
        completedConcepts: nat,
        overallProgress: int,
        trophies: seq<Trophy>,
        earnedCount: nat,
        lessonsRemaining: int)

  /** The number of concepts over all overview modules. */
  function TotalConcepts(modules: seq<ModuleOverviewItem>): nat
  {
    if |modules| == 0 then 0
    else TotalConcepts(modules[..|modules| - 1]) + |modules[|modules| - 1].concepts|
  }

  /** Stored summary-viewed concepts of a module's store entry, 0 when it has none. */
  function StoredCompletedIn(ms: Modules, moduleId: int): nat
  {
    if moduleId in ms then SummaryViewedCount(ms[moduleId]) else 0
  }

  /** The store's summary-viewed concepts summed over the overview modules that have an entry. */
  function StoredCompleted(modules: seq<ModuleOverviewItem>, ms: Modules): nat
  {
    if |modules| == 0 then 0
    else StoredCompleted(modules[..|modules| - 1], ms) + StoredCompletedIn(ms, modules[|modules| - 1].id)
  }

  /** `overallProgress`: 0 for no concepts, else the rounded share. */
  function OverallProgress(total: nat, completed: nat): (p: int)
    ensures total == 0 ==> p == 0
    ensures total > 0 ==> (2 * p - 1) * total <= 200 * completed < (2 * p + 1) * total
    ensures completed <= total ==> 0 <= p <= 100
  {
    if total > 0 then
      assert completed <= total ==> 0 <= Rounding.RoundPercent(completed, total) <= 100 by {
        if completed <= total {
          Rounding.RoundPercentBounds(completed, total);
        }
      }
      Rounding.RoundPercent(completed, total)
    else 0
  }

  /** Trophy `i` (0 or 1) is tied to overview module `i`, if there is one. */
  function TrophyFor(modules: seq<ModuleOverviewItem>, ms: Modules, i: nat): (t: Trophy)
    ensures t.moduleId == (if i < |modules| then Some(modules[i].id) else None)
    ensures t.earned <==> i < |modules| && IsModuleCompleted(ms, modules[i].id)
    ensures t.locked.Some? <==> !t.earned
    ensures t.locked.Some? ==>
      && t.locked.value.viewed == (if i < |modules| then StoredCompletedIn(ms, modules[i].id) else 0)
      && t.locked.value.outOf > 0
      && (i < |modules| && FindModule(modules, modules[i].id).value.concepts != [] ==>
            t.locked.value.outOf == |FindModule(modules, modules[i].id).value.concepts|)
      && (i >= |modules| || FindModule(modules, modules[i].id).value.concepts == [] ==>
            t.locked.value.outOf == 3)
  {
    var moduleId := if i < |modules| then Some(modules[i].id) else None;
    var entry := if moduleId.Some? then GetModuleProgress(ms, moduleId.value) else None;
    var earned := entry.Some? && entry.value.completed;
    var viewed := if entry.Some? then SummaryViewedCount(entry.value) else 0;
    var found := if moduleId.Some? then FindModule(modules, moduleId.value) else None;
    var outOf := if found.Some? && |found.value.concepts| != 0 then |found.value.concepts| else 3;
    Trophy(moduleId, earned, if earned then None else Some(LockedProgress(viewed, outOf)))
  }

  function EarnedCount(trophies: seq<Trophy>): (n: nat)
    ensures n <= |trophies|
  {
    if |trophies| == 0 then 0
    else (if trophies[0].earned then 1 else 0) + EarnedCount(trophies[1..])
  }

  /** The page body: a placeholder while loading or without an overview, else the accumulated statistics. */
  method ComputeProfile(isLoading: bool, overview: Option<seq<ModuleOverviewItem>>, ms: Modules)
    returns (view: ProfileView)
    ensures view.Placeholder? <==> isLoading || overview.None?
    ensures view.Stats? ==>
      var modules := overview.value;
      && view.totalConcepts == TotalConcepts(modules)
      && view.completedConcepts == StoredCompleted(modules, ms)
      && view.overallProgress == OverallProgress(view.totalConcepts, view.completedConcepts)
      && view.trophies == [TrophyFor(modules, ms, 0), TrophyFor(modules, ms, 1)]
      && view.earnedCount <= 2
      && view.earnedCount == (if view.trophies[0].earned then 1 else 0) + (if view.trophies[1].earned then 1 else 0)
      && view.lessonsRemaining == view.totalConcepts - view.completedConcepts
  {
    if isLoading || overview.None? {
      return Placeholder;
    }
    var modules := overview.value;
    var totalConcepts: nat := 0;
    var completedConcepts: nat := 0;
    var i := 0;
    while i < |modules|
      invariant 0 <= i <= |modules|
      invariant totalConcepts == TotalConcepts(modules[..i])
      invariant completedConcepts == StoredCompleted(modules[..i], ms)
    {
      var m := modules[i];
      assert modules[..i + 1][..i] == modules[..i];
      totalConcepts := totalConcepts + |m.concepts|;
      if m.id in ms {
        completedConcepts := completedConcepts + SummaryViewedCount(ms[m.id]);
      }
      i := i + 1;
    }
    assert modules[..|modules|] == modules;
    var trophies := [TrophyFor(modules, ms, 0), TrophyFor(modules, ms, 1)];
    var earned := EarnedCount(trophies);
    assert trophies[1..] == [trophies[1]];
    assert trophies[1..][1..] == [];
    assert EarnedCount(trophies[1..]) == (if trophies[1].earned then 1 else 0) + EarnedCount([]);
    view := Stats(totalConcepts, completedConcepts, OverallProgress(totalConcepts, completedConcepts),
                  trophies, earned, totalConcepts - completedConcepts);
  }

  /** The concept ids a module lists. */
  function ListedIds(m: ModuleOverviewItem): set<int>
  {
    set i | 0 <= i < |m.concepts| :: m.concepts[i].id
  }

  lemma {:induction false} ListedIdsBound(m: ModuleOverviewItem)
    ensures |ListedIds(m)| <= |m.concepts|
    decreases |m.concepts|
  {
    if |m.concepts| > 0 {
      var last := ModuleOverviewItem(m.id, m.title, m.progress, m.concepts[..|m.concepts| - 1]);
      ListedIdsBound(last);
      assert ListedIds(m) == ListedIds(last) + {m.concepts[|m.concepts| - 1].id} by {
        forall x | x in ListedIds(m) ensures x in ListedIds(last) + {m.concepts[|m.concepts| - 1].id} {
          var i :| 0 <= i < |m.concepts| && m.concepts[i].id == x;
          if i < |m.concepts| - 1 { assert last.concepts[i].id == x; }
        }
      }
    } else {
      assert ListedIds(m) == {};
    }
  }

  /**
   * When the store holds summaries only for concepts the overview lists under
   * the same module, completion never exceeds the total, so the overall
   * percentage is within 0..100 and the remaining lesson count is not negative.
   */
  lemma {:induction false} CompletedWithinTotal(modules: seq<ModuleOverviewItem>, ms: Modules)
    requires forall i :: 0 <= i < |modules| && modules[i].id in ms ==>
               SummaryViewedIds(ms[modules[i].id]) <= ListedIds(modules[i])
    ensures StoredCompleted(modules, ms) <= TotalConcepts(modules)
    ensures 0 <= OverallProgress(TotalConcepts(modules), StoredCompleted(modules, ms)) <= 100
  {
    if |modules| > 0 {
      var n := |modules| - 1;
      var prefix := modules[..n];
      assert forall i :: 0 <= i < |prefix| ==> prefix[i] == modules[i];
      CompletedWithinTotal(prefix, ms);
      var m := modules[n];
      if m.id in ms {
        Collections.SubsetCard(SummaryViewedIds(ms[m.id]), ListedIds(m));
        ListedIdsBound(m);
      }
    }
  }

  /**
   * Without that condition nothing bounds the count: a store entry with a
   * viewed summary for a module the overview lists with no concepts gives one
   * completed lesson out of zero, so "lessons to go" reads -1.
   */
  lemma StoredCompletionCanExceedTotal()
    ensures
      var modules := [ModuleOverviewItem(1, "M", 0, [])];
      var ms := map[1 := ModuleProgress(1, true, false, map[5 := ConceptProgress(5, false, true, true, true, map[], 0)], false)];
      TotalConcepts(modules) - StoredCompleted(modules, ms) == -1
  {
    var modules := [ModuleOverviewItem(1, "M", 0, [])];
    var ms := map[1 := ModuleProgress(1, true, false, map[5 := ConceptProgress(5, false, true, true, true, map[], 0)], false)];
    assert modules[..0] == [];
    assert SummaryViewedIds(ms[1]) == {5};
  }

  /** A trophy is earned exactly when its module's store entry is marked completed; viewing summaries alone never earns it. */
  lemma {:induction false} TrophyNeedsCompletion(modules: seq<ModuleOverviewItem>, ms: Modules, i: nat, conceptId: int)
    requires i < |modules|
    ensures TrophyFor(modules, ms, i).earned <==> IsModuleCompleted(ms, modules[i].id)
    ensures TrophyFor(modules, ConceptSummaryViewed(ms, modules[i].id, conceptId), i).earned ==
            TrophyFor(modules, ms, i).earned
    ensures TrophyFor(modules, ModuleCompleted(ms, modules[i].id), i).earned <==> modules[i].id in ms
  {
    ConceptActionsKeepOtherFlags(ms, modules[i].id, conceptId, modules[i].id, conceptId);
  }
}
