/**
 * The legacy single-page application (src/legacy/App.tsx): a page state
 * machine over a fixed module list, with sets of completed concepts and themes.
 * Here "concept completed" means its practice was completed.
 *
 * Page flow: theme -> concept intro -> practice intro -> practice -> concept
 * summary -> next concept's intro or the module reflection -> module completed
 * -> learn (or the medal once every concept is completed).
 */
module LegacyApp {
  import opened Wrappers
  import opened Course
  import opened Collections

  datatype Page =
    | Learn
    | ProfilePage
    | Theme(moduleId: int)
    | ConceptIntro(conceptId: int)
    | PracticeIntro(conceptId: int)
    | Practice(conceptId: int)
    | ConceptSummary(conceptId: int, moduleId: int)
    | ModuleReflection(moduleId: int)
    | ModuleCompleted(moduleId: int)
    | Medal

  /** Whether a module lists a concept id. */
  predicate Lists(m: ModuleOverviewItem, conceptId: int)
  {
    exists j :: 0 <= j < |m.concepts| && m.concepts[j].id == conceptId
  }

  /** `getModuleIdForConcept`: the first module listing the concept, or module 1 when none does. */
  function ModuleIdForConcept(modules: seq<ModuleOverviewItem>, conceptId: int): (r: int)
    ensures (forall i :: 0 <= i < |modules| ==> !Lists(modules[i], conceptId)) ==> r == 1
    ensures forall i ::
      (0 <= i < |modules| && Lists(modules[i], conceptId) &&
       (forall k :: 0 <= k < i ==> !Lists(modules[k], conceptId))) ==> r == modules[i].id
  {
    if |modules| == 0 then 1
    else if Lists(modules[0], conceptId) then modules[0].id
    else
      var r := ModuleIdForConcept(modules[1..], conceptId);
      assert forall i :: 1 <= i < |modules| ==> modules[i] == modules[1..][i - 1];
      r
  }

  /** `findIndex` on a concept list: the first position holding the id, or -1. */
  function IndexOfConcept(concepts: seq<ConceptListItem>, conceptId: int): (r: int)
    ensures -1 <= r < |concepts|
    ensures r == -1 <==> forall j :: 0 <= j < |concepts| ==> concepts[j].id != conceptId
    ensures r >= 0 ==> concepts[r].id == conceptId && forall j :: 0 <= j < r ==> concepts[j].id != conceptId
  {
    if |concepts| == 0 then -1
    else if concepts[0].id == conceptId then 0
    else
      var r := IndexOfConcept(concepts[1..], conceptId);
      assert forall j :: 1 <= j < |concepts| ==> concepts[j] == concepts[1..][j - 1];
      if r == -1 then -1 else r + 1
  }

  /** `getNextConceptInModule`: the concept after the given one, or none when the module or concept is missing or it is last. */
  function NextConceptInModule(modules: seq<ModuleOverviewItem>, conceptId: int, moduleId: int): (r: Option<int>)
    ensures FindModule(modules, moduleId).None? ==> r.None?
    ensures FindModule(modules, moduleId).Some? ==>
      var cs := FindModule(modules, moduleId).value.concepts;
      var i := IndexOfConcept(cs, conceptId);
      (r.Some? <==> 0 <= i < |cs| - 1) && (r.Some? ==> r.value == cs[i + 1].id)
  {
    match FindModule(modules, moduleId)
    case None => None
    case Some(m) =>
      var i := IndexOfConcept(m.concepts, conceptId);
      if i == -1 || i == |m.concepts| - 1 then None else Some(m.concepts[i + 1].id)
  }

  /** `isModuleComplete`: the module exists and every one of its concepts is completed. */
  function IsModuleComplete(modules: seq<ModuleOverviewItem>, done: set<int>, moduleId: int): (r: bool)
    ensures r <==> (FindModule(modules, moduleId).Some? &&
      forall j :: 0 <= j < |FindModule(modules, moduleId).value.concepts| ==>
        FindModule(modules, moduleId).value.concepts[j].id in done)
  {
    match FindModule(modules, moduleId)
    case None => false
    case Some(m) => forall j :: 0 <= j < |m.concepts| ==> m.concepts[j].id in done
  }

  /** All concept ids, module by module, in order. */
  function AllConceptIds(modules: seq<ModuleOverviewItem>): seq<int>
  {
    if |modules| == 0 then []
    else AllConceptIds(modules[..|modules| - 1]) + ConceptIds(modules[|modules| - 1].concepts)
  }

  /** `modulesData.reduce((sum, module) => sum + module.concepts.length, 0)`. */
  function TotalConcepts(modules: seq<ModuleOverviewItem>): (n: nat)
    ensures n == |AllConceptIds(modules)|
  {
    if |modules| == 0 then 0
    else TotalConcepts(modules[..|modules| - 1]) + |modules[|modules| - 1].concepts|
  }

  /** `allModulesCompleted`: the completed set is as large as the concept total. */
  function AllModulesCompleted(modules: seq<ModuleOverviewItem>, done: set<int>): (b: bool)
    ensures b <==> |done| == |AllConceptIds(modules)|
  {
    |done| == TotalConcepts(modules)
  }

  class App {
    const modules: seq<ModuleOverviewItem>
    var currentPage: Page
    var completedConcepts: set<int>
    var completedThemes: set<int>
    var streak: int

    /** Starts on the learn page with nothing completed and a streak of 7. */
    constructor (modulesData: seq<ModuleOverviewItem>)
      ensures modules == modulesData
      ensures currentPage == Learn && completedConcepts == {} && completedThemes == {} && streak == 7
    {
      modules := modulesData;
      currentPage := Learn;
      completedConcepts := {};
      completedThemes := {};
      streak := 7;
    }

    /** The header's navigation: only "learn" and "profile" change the page. */
    method Navigate(page: string)
      modifies this
      ensures currentPage == (if page == "learn" then Learn else if page == "profile" then ProfilePage else old(currentPage))
      ensures completedConcepts == old(completedConcepts) && completedThemes == old(completedThemes) && streak == old(streak)
    {
      if page == "learn" {
        currentPage := Learn;
      } else if page == "profile" {
        currentPage := ProfilePage;
      }
    }

    method StartTheme(moduleId: int)
      modifies this
      ensures currentPage == Theme(moduleId)
      ensures completedConcepts == old(completedConcepts) && completedThemes == old(completedThemes) && streak == old(streak)
    {
      currentPage := Theme(moduleId);
    }

    method StartConcept(conceptId: int)
      modifies this
      ensures currentPage == ConceptIntro(conceptId)
      ensures completedConcepts == old(completedConcepts) && completedThemes == old(completedThemes) && streak == old(streak)
    {
      currentPage := ConceptIntro(conceptId);
    }

    /**
     * The theme page's start button: records the theme as completed and opens
     * the module's first concept. With no module on the page nothing is shown;
     * a module without concepts makes the handler fail (`ok` false) after the
     * theme is recorded, leaving the page as it was.
     */
    method StartFromTheme() returns (ok: bool)
      modifies this
      ensures completedConcepts == old(completedConcepts) && streak == old(streak)
      ensures old(currentPage).Theme? && FindModule(modules, old(currentPage).moduleId).Some? ==>
        var m := FindModule(modules, old(currentPage).moduleId).value;
        && completedThemes == old(completedThemes) + {old(currentPage).moduleId}
        && ok == (|m.concepts| > 0)
        && currentPage == (if ok then ConceptIntro(m.concepts[0].id) else old(currentPage))
      ensures !(old(currentPage).Theme? && FindModule(modules, old(currentPage).moduleId).Some?) ==>
        !ok && completedThemes == old(completedThemes) && currentPage == old(currentPage)
    {
      ok := false;
      if currentPage.Theme? {
        var found := FindModule(modules, currentPage.moduleId);
        if found.Some? {
          completedThemes := completedThemes + {currentPage.moduleId};
          if |found.value.concepts| > 0 {
            ok := true;
            StartConcept(found.value.concepts[0].id);
          }
        }
      }
    }

    method CompleteConceptIntro(conceptId: int)
      modifies this
      ensures currentPage == PracticeIntro(conceptId)
      ensures completedConcepts == old(completedConcepts) && completedThemes == old(completedThemes) && streak == old(streak)
    {
      currentPage := PracticeIntro(conceptId);
    }

    method StartPractice(conceptId: int)
      modifies this
      ensures currentPage == Practice(conceptId)
      ensures completedConcepts == old(completedConcepts) && completedThemes == old(completedThemes) && streak == old(streak)
    {
      currentPage := Practice(conceptId);
    }

    /** Completing practice completes the concept and shows its summary, tagged with its module. */
    method CompletePractice(conceptId: int)
      modifies this
      ensures completedConcepts == old(completedConcepts) + {conceptId}
      ensures currentPage == ConceptSummary(conceptId, ModuleIdForConcept(modules, conceptId))
      ensures completedThemes == old(completedThemes) && streak == old(streak)
    {
      var moduleId := ModuleIdForConcept(modules, conceptId);
      completedConcepts := completedConcepts + {conceptId};
      currentPage := ConceptSummary(conceptId, moduleId);
    }

    /** From a summary: the next concept's intro when there is one (a truthy id), else the module's reflection. */
    method ContinueFromSummary(conceptId: int, moduleId: int)
      modifies this
      ensures var next := NextConceptInModule(modules, conceptId, moduleId);
        currentPage == (if next.Some? && next.value != 0 then ConceptIntro(next.value) else ModuleReflection(moduleId))
      ensures completedConcepts == old(completedConcepts) && completedThemes == old(completedThemes) && streak == old(streak)
    {
      var next := NextConceptInModule(modules, conceptId, moduleId);
      if next.Some? && next.value != 0 {
        currentPage := ConceptIntro(next.value);
      } else {
        currentPage := ModuleReflection(moduleId);
      }
    }

    method CompleteReflection(moduleId: int)
      modifies this
      ensures currentPage == ModuleCompleted(moduleId)
      ensures completedConcepts == old(completedConcepts) && completedThemes == old(completedThemes) && streak == old(streak)
    {
      currentPage := ModuleCompleted(moduleId);
    }

    /** Back from a completed module: the medal once everything is completed, else the learn page. */
    method BackToLearn()
      modifies this
      ensures currentPage == (if AllModulesCompleted(modules, completedConcepts) then Medal else Learn)
      ensures completedConcepts == old(completedConcepts) && completedThemes == old(completedThemes) && streak == old(streak)
    {
      if |completedConcepts| == TotalConcepts(modules) {
        currentPage := Medal;
      } else {
        currentPage := Learn;
      }
    }

    /** The back buttons of the theme, intro and medal pages. */
    method GoToLearn()
      modifies this
      ensures currentPage == Learn
      ensures completedConcepts == old(completedConcepts) && completedThemes == old(completedThemes) && streak == old(streak)
    {
      currentPage := Learn;
    }

    /** The effect that replaces the learn page by the medal once everything is completed. */
    method ShowMedalWhenDone()
      modifies this
      ensures currentPage == (if AllModulesCompleted(modules, completedConcepts) && old(currentPage) == Learn
                              then Medal else old(currentPage))
      ensures completedConcepts == old(completedConcepts) && completedThemes == old(completedThemes) && streak == old(streak)
    {
      if AllModulesCompleted(modules, completedConcepts) && currentPage == Learn {
        currentPage := Medal;
      }
    }
  }

  // ---------------------------------------------------------------------------
  // Properties of the navigation helpers

  /** Concept ids of a module listed without repetition. */
  predicate DistinctConcepts(m: ModuleOverviewItem)
  {
    forall i, j :: 0 <= i < j < |m.concepts| ==> m.concepts[i].id != m.concepts[j].id
  }

  /**
   * Within a module whose concept ids are distinct, the concept after position
   * `i` is the one at `i + 1`, and the last concept has none, so a summary
   * leads to the next intro or, after the last concept, to the reflection.
   */
  lemma {:induction false} NextWalksTheModule(modules: seq<ModuleOverviewItem>, mi: int, i: int)
    requires 0 <= mi < |modules|
    requires forall k :: 0 <= k < mi ==> modules[k].id != modules[mi].id
    requires DistinctConcepts(modules[mi])
    requires 0 <= i < |modules[mi].concepts|
    ensures var cs := modules[mi].concepts;
      NextConceptInModule(modules, cs[i].id, modules[mi].id) ==
        (if i < |cs| - 1 then Some(cs[i + 1].id) else None)
  {
    FindModuleAt(modules, mi);
    var cs := modules[mi].concepts;
    var r := IndexOfConcept(cs, cs[i].id);
    assert r != -1;
    assert r == i;
  }

  /** The summary page of a concept listed under a module carries that module (when no earlier module lists it). */
  lemma {:induction false} SummaryCarriesModule(modules: seq<ModuleOverviewItem>, mi: int, j: int)
    requires 0 <= mi < |modules| && 0 <= j < |modules[mi].concepts|
    requires forall k :: 0 <= k < mi ==> !Lists(modules[k], modules[mi].concepts[j].id)
    ensures ModuleIdForConcept(modules, modules[mi].concepts[j].id) == modules[mi].id
  {
  }

  // ---------------------------------------------------------------------------
  // The medal rule

  lemma {:induction false} InAllConceptIds(modules: seq<ModuleOverviewItem>, x: int)
    ensures x in AllConceptIds(modules) <==> exists i :: 0 <= i < |modules| && Lists(modules[i], x)
  {
    if |modules| > 0 {
      var p := modules[..|modules| - 1];
      var last := modules[|modules| - 1];
      InAllConceptIds(p, x);
      assert forall i :: 0 <= i < |p| ==> p[i] == modules[i];
      assert x in ConceptIds(last.concepts) <==> Lists(last, x) by {
        if x in ConceptIds(last.concepts) {
          var j :| 0 <= j < |last.concepts| && ConceptIds(last.concepts)[j] == x;
        }
        if Lists(last, x) {
          var j :| 0 <= j < |last.concepts| && last.concepts[j].id == x;
          assert ConceptIds(last.concepts)[j] == x;
        }
      }
    }
  }

  /**
   * When concept ids are distinct across the whole course, module ids are
   * distinct and only listed concepts are ever completed, the medal condition
   * (completed count equals the total) holds exactly when every module is
   * complete.
   */
  lemma {:induction false} MedalMeansEveryModuleComplete(modules: seq<ModuleOverviewItem>, done: set<int>)
    requires NoDuplicates(AllConceptIds(modules))
    requires forall i, k :: 0 <= i < k < |modules| ==> modules[i].id != modules[k].id
    requires done <= ToSet(AllConceptIds(modules))
    ensures AllModulesCompleted(modules, done) <==>
      forall i :: 0 <= i < |modules| ==> IsModuleComplete(modules, done, modules[i].id)
  {
    var all := ToSet(AllConceptIds(modules));
    DistinctCard(AllConceptIds(modules));
    forall i | 0 <= i < |modules| ensures FindModule(modules, modules[i].id) == Some(modules[i]) {
      FindModuleAt(modules, i);
    }
    if AllModulesCompleted(modules, done) {
      SubsetSameSize(done, all);
      forall i, j | 0 <= i < |modules| && 0 <= j < |modules[i].concepts|
        ensures modules[i].concepts[j].id in done
      {
        InAllConceptIds(modules, modules[i].concepts[j].id);
      }
    }
    if forall i :: 0 <= i < |modules| ==> IsModuleComplete(modules, done, modules[i].id) {
      assert all <= done by {
        forall x | x in all ensures x in done {
          InAllConceptIds(modules, x);
          var i :| 0 <= i < |modules| && Lists(modules[i], x);
          var j :| 0 <= j < |modules[i].concepts| && modules[i].concepts[j].id == x;
          assert IsModuleComplete(modules, done, modules[i].id);
        }
      }
      assert done == all;
    }
  }
}
