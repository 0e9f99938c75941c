/**
 * The learner-progress store of the current front end (lib/state/progressStore.ts).
 *
 * The state is a map from module id to `ModuleProgress`, each holding a map from
 * concept id to `ConceptProgress`. Each action is specified by a pure transition
 * function on that map; the `Store` class holds the state and its methods
 * replace `modules` with the transition's result, as the store's `set` does.
 *
 * Mutators are deliberately asymmetric: marking a theme viewed or a concept
 * intro completed creates missing entries, while the reflection, module,
 * practice, summary and quiz-answer actions leave the state unchanged when the
 * entry they would update is missing. Getters never fail: a missing entry reads
 * as `false`.
 */
module ProgressStore {
  import opened Wrappers
  import Rounding
  import Collections

  datatype ConceptProgress = ConceptProgress(
    conceptId: int,
    themeViewed: bool,
    introCompleted: bool,
    practiceCompleted: bool,
    summaryViewed: bool,
    quizAnswers: map<int, seq<int>>,
    timeSpent: int)

  datatype ModuleProgress = ModuleProgress(
    moduleId: int,
    themeViewed: bool,
    reflectionViewed: bool,
    concepts: map<int, ConceptProgress>,
    completed: bool)

  type Modules = map<int, ModuleProgress>

  const InitialUserId: int := 1

  /** The entry created for a module seen for the first time. */
  function NewModule(moduleId: int): ModuleProgress
  {
    ModuleProgress(moduleId, false, false, map[], false)
  }

  /** The entry created for a concept seen for the first time. */
  function NewConcept(conceptId: int): ConceptProgress
  {
    ConceptProgress(conceptId, false, false, false, false, map[], 0)
  }

  // ---------------------------------------------------------------------------
  // Getters

  /** `modules[moduleId]`: the stored entry, or none (`undefined`). */
  function GetModuleProgress(ms: Modules, moduleId: int): (r: Option<ModuleProgress>)
    ensures r.Some? <==> moduleId in ms
    ensures r.Some? ==> r.value == ms[moduleId]
  {
    if moduleId in ms then Some(ms[moduleId]) else None
  }

  /** `modules[moduleId]?.concepts[conceptId]`: none (`undefined`) when either entry is missing. */
  function GetConceptProgress(ms: Modules, moduleId: int, conceptId: int): (r: Option<ConceptProgress>)
    ensures r.Some? <==> GetModuleProgress(ms, moduleId).Some? && conceptId in GetModuleProgress(ms, moduleId).value.concepts
    ensures r.Some? ==> r.value == ms[moduleId].concepts[conceptId]
  {
    if moduleId in ms && conceptId in ms[moduleId].concepts
    then Some(ms[moduleId].concepts[conceptId])
    else None
  }

  /** `?.themeViewed || false`: false for a missing module. */
  function IsThemeViewed(ms: Modules, moduleId: int): (b: bool)
    ensures b <==> GetModuleProgress(ms, moduleId).Some? && GetModuleProgress(ms, moduleId).value.themeViewed
  {
    moduleId in ms && ms[moduleId].themeViewed
  }

  /** `?.reflectionViewed || false`: false for a missing module. */
  function IsReflectionViewed(ms: Modules, moduleId: int): (b: bool)
    ensures b <==> GetModuleProgress(ms, moduleId).Some? && GetModuleProgress(ms, moduleId).value.reflectionViewed
  {
    moduleId in ms && ms[moduleId].reflectionViewed
  }

  /** `?.completed || false`: false for a missing module. */
  function IsModuleCompleted(ms: Modules, moduleId: int): (b: bool)
    ensures b <==> GetModuleProgress(ms, moduleId).Some? && GetModuleProgress(ms, moduleId).value.completed
  {
    moduleId in ms && ms[moduleId].completed
  }

  /** `?.concepts[conceptId]?.introCompleted || false`: false unless both entries exist. */
  function IsConceptIntroCompleted(ms: Modules, moduleId: int, conceptId: int): (b: bool)
    ensures b <==> moduleId in ms && conceptId in ms[moduleId].concepts && ms[moduleId].concepts[conceptId].introCompleted
  {
    var c := GetConceptProgress(ms, moduleId, conceptId);
    c.Some? && c.value.introCompleted
  }

  /** `?.concepts[conceptId]?.practiceCompleted || false`: false unless both entries exist. */
  function IsConceptPracticeCompleted(ms: Modules, moduleId: int, conceptId: int): (b: bool)
    ensures b <==> moduleId in ms && conceptId in ms[moduleId].concepts && ms[moduleId].concepts[conceptId].practiceCompleted
  {
    var c := GetConceptProgress(ms, moduleId, conceptId);
    c.Some? && c.value.practiceCompleted
  }

  /** `?.concepts[conceptId]?.summaryViewed || false`: false unless both entries exist. */
  function IsConceptSummaryViewed(ms: Modules, moduleId: int, conceptId: int): (b: bool)
    ensures b <==> moduleId in ms && conceptId in ms[moduleId].concepts && ms[moduleId].concepts[conceptId].summaryViewed
  {
    var c := GetConceptProgress(ms, moduleId, conceptId);
    c.Some? && c.value.summaryViewed
  }

  /** The stored concepts of a module whose summary was viewed. */
  function SummaryViewedIds(m: ModuleProgress): (ids: set<int>)
    ensures forall c :: c in ids <==> c in m.concepts && m.concepts[c].summaryViewed
  {
    set c | c in m.concepts && m.concepts[c].summaryViewed
  }

  /** `Object.values(mod.concepts).filter((c) => c.summaryViewed).length`. */
  function SummaryViewedCount(m: ModuleProgress): (k: nat)
    ensures k == |SummaryViewedIds(m)|
    ensures k <= |m.concepts|
  {
    SummaryViewedBound(m);
    |SummaryViewedIds(m)|
  }

  lemma SummaryViewedBound(m: ModuleProgress)
    ensures |SummaryViewedIds(m)| <= |m.concepts|
  {
    assert SummaryViewedIds(m) <= m.concepts.Keys;
    Collections.SubsetCard(SummaryViewedIds(m), m.concepts.Keys);
  }


  /**
   * `getConceptCompletionPercentage`: 0 for a missing module or a zero total,
   * otherwise the rounded share of stored summary-viewed concepts in the total.
   */
  function ConceptCompletionPercentage(ms: Modules, moduleId: int, totalConcepts: int): (p: int)
    ensures moduleId !in ms || totalConcepts == 0 ==> p == 0
    ensures moduleId in ms && totalConcepts > 0 ==>
      var k := SummaryViewedCount(ms[moduleId]);
      (2 * p - 1) * totalConcepts <= 200 * k < (2 * p + 1) * totalConcepts
    ensures moduleId in ms && totalConcepts < 0 ==>
      var k := SummaryViewedCount(ms[moduleId]);
      (2 * p + 1) * totalConcepts < 200 * k <= (2 * p - 1) * totalConcepts
  {
    if moduleId !in ms || totalConcepts == 0 then 0
    else Rounding.RoundPercent(SummaryViewedCount(ms[moduleId]), totalConcepts)
  }

  // ---------------------------------------------------------------------------
  // Transitions (the specification of each action)

  /** Everything outside module `moduleId` is as it was. */
  ghost predicate OthersUnchanged(ms: Modules, r: Modules, moduleId: int)
  {
    forall m :: m != moduleId ==> (m in r <==> m in ms) && (m in ms ==> r[m] == ms[m])
  }

  /** Within a module, every concept other than `conceptId` is as it was. */
  ghost predicate SiblingsUnchanged(before: map<int, ConceptProgress>, after: map<int, ConceptProgress>, conceptId: int)
  {
    forall c :: c != conceptId ==> (c in after <==> c in before) && (c in before ==> after[c] == before[c])
  }

  /** `markThemeViewed`: creates the module entry if missing and sets only `themeViewed`. */
  function ThemeViewed(ms: Modules, moduleId: int): (r: Modules)
    ensures moduleId in r && r[moduleId].themeViewed
    ensures moduleId in ms ==> r[moduleId] == ms[moduleId].(themeViewed := true)
    ensures moduleId !in ms ==>
      && r[moduleId].moduleId == moduleId
      && !r[moduleId].reflectionViewed && !r[moduleId].completed
      && r[moduleId].concepts == map[]
    ensures OthersUnchanged(ms, r, moduleId)
  {
    var m := if moduleId in ms then ms[moduleId] else NewModule(moduleId);
    ms[moduleId := m.(themeViewed := true)]
  }

  /** `markReflectionViewed`: unchanged when the module entry is missing, else sets only `reflectionViewed`. */
  function ReflectionViewed(ms: Modules, moduleId: int): (r: Modules)
    ensures moduleId !in ms ==> r == ms
    ensures moduleId in ms ==> moduleId in r && r[moduleId] == ms[moduleId].(reflectionViewed := true)
    ensures OthersUnchanged(ms, r, moduleId)
  {
    if moduleId !in ms then ms
    else ms[moduleId := ms[moduleId].(reflectionViewed := true)]
  }

  /** `markModuleCompleted`: unchanged when the module entry is missing, else sets only `completed`. */
  function ModuleCompleted(ms: Modules, moduleId: int): (r: Modules)
    ensures moduleId !in ms ==> r == ms
    ensures moduleId in ms ==> moduleId in r && r[moduleId] == ms[moduleId].(completed := true)
    ensures OthersUnchanged(ms, r, moduleId)
  {
    if moduleId !in ms then ms
    else ms[moduleId := ms[moduleId].(completed := true)]
  }

  /** `markConceptIntroCompleted`: creates the module and concept entries if missing and sets only `introCompleted`. */
  function ConceptIntroCompleted(ms: Modules, moduleId: int, conceptId: int): (r: Modules)
    ensures moduleId in r && conceptId in r[moduleId].concepts
    ensures r[moduleId].concepts[conceptId].introCompleted
    ensures moduleId in ms ==>
      r[moduleId].(concepts := ms[moduleId].concepts) == ms[moduleId]
    ensures moduleId !in ms ==>
      r[moduleId].(concepts := map[]) == NewModule(moduleId)
    ensures GetConceptProgress(ms, moduleId, conceptId).Some? ==>
      r[moduleId].concepts[conceptId] == ms[moduleId].concepts[conceptId].(introCompleted := true)
    ensures GetConceptProgress(ms, moduleId, conceptId).None? ==>
      r[moduleId].concepts[conceptId] == NewConcept(conceptId).(introCompleted := true)
    ensures SiblingsUnchanged(if moduleId in ms then ms[moduleId].concepts else map[], r[moduleId].concepts, conceptId)
    ensures OthersUnchanged(ms, r, moduleId)
  {
    var m := if moduleId in ms then ms[moduleId] else NewModule(moduleId);
    var c := if conceptId in m.concepts then m.concepts[conceptId] else NewConcept(conceptId);
    ms[moduleId := m.(concepts := m.concepts[conceptId := c.(introCompleted := true)])]
  }

  /** Replaces an existing concept entry, leaving the module's own flags alone. */
  function WithConcept(ms: Modules, moduleId: int, conceptId: int, c: ConceptProgress): (r: Modules)
    requires moduleId in ms
    ensures moduleId in r && conceptId in r[moduleId].concepts && r[moduleId].concepts[conceptId] == c
    ensures r[moduleId].(concepts := ms[moduleId].concepts) == ms[moduleId]
    ensures SiblingsUnchanged(ms[moduleId].concepts, r[moduleId].concepts, conceptId)
    ensures OthersUnchanged(ms, r, moduleId)
  {
    ms[moduleId := ms[moduleId].(concepts := ms[moduleId].concepts[conceptId := c])]
  }

  /** `markConceptPracticeCompleted`: unchanged unless both entries exist, else sets only `practiceCompleted`. */
  function ConceptPracticeCompleted(ms: Modules, moduleId: int, conceptId: int): (r: Modules)
    ensures GetConceptProgress(ms, moduleId, conceptId).None? ==> r == ms
    ensures GetConceptProgress(ms, moduleId, conceptId).Some? ==>
      r == WithConcept(ms, moduleId, conceptId, ms[moduleId].concepts[conceptId].(practiceCompleted := true))
  {
    match GetConceptProgress(ms, moduleId, conceptId)
    case None => ms
    case Some(c) => WithConcept(ms, moduleId, conceptId, c.(practiceCompleted := true))
  }

  /** `markConceptSummaryViewed`: unchanged unless both entries exist, else sets only `summaryViewed`. */
  function ConceptSummaryViewed(ms: Modules, moduleId: int, conceptId: int): (r: Modules)
    ensures GetConceptProgress(ms, moduleId, conceptId).None? ==> r == ms
    ensures GetConceptProgress(ms, moduleId, conceptId).Some? ==>
      r == WithConcept(ms, moduleId, conceptId, ms[moduleId].concepts[conceptId].(summaryViewed := true))
  {
    match GetConceptProgress(ms, moduleId, conceptId)
    case None => ms
    case Some(c) => WithConcept(ms, moduleId, conceptId, c.(summaryViewed := true))
  }

  /** `saveQuizAnswer`: unchanged unless both entries exist, else overwrites the answer for `quizId` only. */
  function QuizAnswerSaved(ms: Modules, moduleId: int, conceptId: int, quizId: int, answers: seq<int>): (r: Modules)
    ensures GetConceptProgress(ms, moduleId, conceptId).None? ==> r == ms
    ensures GetConceptProgress(ms, moduleId, conceptId).Some? ==>
      moduleId in r && conceptId in r[moduleId].concepts
    ensures GetConceptProgress(ms, moduleId, conceptId).Some? ==>
      var old_ := ms[moduleId].concepts[conceptId];
      var new_ := r[moduleId].concepts[conceptId];
      && r == WithConcept(ms, moduleId, conceptId, new_)
      && new_.(quizAnswers := old_.quizAnswers) == old_
      && quizId in new_.quizAnswers && new_.quizAnswers[quizId] == answers
      && forall q :: q != quizId ==>
           (q in new_.quizAnswers <==> q in old_.quizAnswers)
           && (q in old_.quizAnswers ==> new_.quizAnswers[q] == old_.quizAnswers[q])
  {
    match GetConceptProgress(ms, moduleId, conceptId)
    case None => ms
    case Some(c) => WithConcept(ms, moduleId, conceptId, c.(quizAnswers := c.quizAnswers[quizId := answers]))
  }

  // ---------------------------------------------------------------------------
  // The store object

  class Store {
    var userId: int
    var modules: Modules

    /** `initialState`: user 1 and no progress. */
    constructor ()
      ensures userId == InitialUserId && modules == map[]
    {
      userId := InitialUserId;
      modules := map[];
    }

    method MarkThemeViewed(moduleId: int)
      modifies this
      ensures modules == ThemeViewed(old(modules), moduleId) && userId == old(userId)
    {
      var m := if moduleId in modules then modules[moduleId] else NewModule(moduleId);
      modules := modules[moduleId := m.(themeViewed := true)];
    }

    method MarkReflectionViewed(moduleId: int)
      modifies this
      ensures modules == ReflectionViewed(old(modules), moduleId) && userId == old(userId)
    {
      if moduleId in modules {
        modules := modules[moduleId := modules[moduleId].(reflectionViewed := true)];
      }
    }

    method MarkModuleCompleted(moduleId: int)
      modifies this
      ensures modules == ModuleCompleted(old(modules), moduleId) && userId == old(userId)
    {
      if moduleId in modules {
        modules := modules[moduleId := modules[moduleId].(completed := true)];
      }
    }

    method MarkConceptIntroCompleted(moduleId: int, conceptId: int)
      modifies this
      ensures modules == ConceptIntroCompleted(old(modules), moduleId, conceptId) && userId == old(userId)
    {
      var m := if moduleId in modules then modules[moduleId] else NewModule(moduleId);
      var c := if conceptId in m.concepts then m.concepts[conceptId] else NewConcept(conceptId);
      modules := modules[moduleId := m.(concepts := m.concepts[conceptId := c.(introCompleted := true)])];
    }

    method MarkConceptPracticeCompleted(moduleId: int, conceptId: int)
      modifies this
      ensures modules == ConceptPracticeCompleted(old(modules), moduleId, conceptId) && userId == old(userId)
    {
      if moduleId in modules && conceptId in modules[moduleId].concepts {
        var m := modules[moduleId];
        var c := m.concepts[conceptId];
        modules := modules[moduleId := m.(concepts := m.concepts[conceptId := c.(practiceCompleted := true)])];
      }
    }

    method MarkConceptSummaryViewed(moduleId: int, conceptId: int)
      modifies this
      ensures modules == ConceptSummaryViewed(old(modules), moduleId, conceptId) && userId == old(userId)
    {
      if moduleId in modules && conceptId in modules[moduleId].concepts {
        var m := modules[moduleId];
        var c := m.concepts[conceptId];
        modules := modules[moduleId := m.(concepts := m.concepts[conceptId := c.(summaryViewed := true)])];
      }
    }

    method SaveQuizAnswer(moduleId: int, conceptId: int, quizId: int, answers: seq<int>)
      modifies this
      ensures modules == QuizAnswerSaved(old(modules), moduleId, conceptId, quizId, answers) && userId == old(userId)
    {
      if moduleId in modules && conceptId in modules[moduleId].concepts {
        var m := modules[moduleId];
        var c := m.concepts[conceptId];
        modules := modules[moduleId := m.(concepts := m.concepts[conceptId := c.(quizAnswers := c.quizAnswers[quizId := answers])])];
      }
    }

    /** `reset`: back to the initial state. */
    method Reset()
      modifies this
      ensures userId == InitialUserId && modules == map[]
    {
      userId := InitialUserId;
      modules := map[];
    }
  }

  // ---------------------------------------------------------------------------
  // Properties of the actions

  /** Every action, applied twice with the same arguments, gives the state it gives once. */
  lemma MarksIdempotent(ms: Modules, moduleId: int, conceptId: int, quizId: int, answers: seq<int>)
    ensures ThemeViewed(ThemeViewed(ms, moduleId), moduleId) == ThemeViewed(ms, moduleId)
    ensures ReflectionViewed(ReflectionViewed(ms, moduleId), moduleId) == ReflectionViewed(ms, moduleId)
    ensures ModuleCompleted(ModuleCompleted(ms, moduleId), moduleId) == ModuleCompleted(ms, moduleId)
    ensures ConceptIntroCompleted(ConceptIntroCompleted(ms, moduleId, conceptId), moduleId, conceptId)
            == ConceptIntroCompleted(ms, moduleId, conceptId)
    ensures ConceptPracticeCompleted(ConceptPracticeCompleted(ms, moduleId, conceptId), moduleId, conceptId)
            == ConceptPracticeCompleted(ms, moduleId, conceptId)
    ensures ConceptSummaryViewed(ConceptSummaryViewed(ms, moduleId, conceptId), moduleId, conceptId)
            == ConceptSummaryViewed(ms, moduleId, conceptId)
    ensures QuizAnswerSaved(QuizAnswerSaved(ms, moduleId, conceptId, quizId, answers), moduleId, conceptId, quizId, answers)
            == QuizAnswerSaved(ms, moduleId, conceptId, quizId, answers)
  {
    var t := ThemeViewed(ms, moduleId);
    SameUpdate(t, moduleId);
    var rv := ReflectionViewed(ms, moduleId);
    if moduleId in ms { SameUpdate(rv, moduleId); }
    var mc := ModuleCompleted(ms, moduleId);
    if moduleId in ms { SameUpdate(mc, moduleId); }
    var ic := ConceptIntroCompleted(ms, moduleId, conceptId);
    SameUpdate(ic[moduleId].concepts, conceptId);
    SameUpdate(ic, moduleId);
    if GetConceptProgress(ms, moduleId, conceptId).Some? {
      var pc := ConceptPracticeCompleted(ms, moduleId, conceptId);
      SameUpdate(pc[moduleId].concepts, conceptId);
      SameUpdate(pc, moduleId);
      var sv := ConceptSummaryViewed(ms, moduleId, conceptId);
      SameUpdate(sv[moduleId].concepts, conceptId);
      SameUpdate(sv, moduleId);
      var qa := QuizAnswerSaved(ms, moduleId, conceptId, quizId, answers);
      SameUpdate(qa[moduleId].concepts[conceptId].quizAnswers, quizId);
      SameUpdate(qa[moduleId].concepts, conceptId);
      SameUpdate(qa, moduleId);
    }
  }

  /** Storing the value a key already has leaves a map as it is. */
  lemma SameUpdate<K, V>(m: map<K, V>, k: K)
    requires k in m
    ensures m[k := m[k]] == m
  {
  }

  /** Every getter reads false for a module or concept without an entry. */
  lemma AbsentReadsFalse(ms: Modules, moduleId: int, conceptId: int)
    requires GetConceptProgress(ms, moduleId, conceptId).None?
    ensures !IsConceptIntroCompleted(ms, moduleId, conceptId)
    ensures !IsConceptPracticeCompleted(ms, moduleId, conceptId)
    ensures !IsConceptSummaryViewed(ms, moduleId, conceptId)
    ensures moduleId !in ms ==>
      !IsThemeViewed(ms, moduleId) && !IsReflectionViewed(ms, moduleId) && !IsModuleCompleted(ms, moduleId)
      && GetModuleProgress(ms, moduleId).None?
  {
  }

  /**
   * Each getter holds after its action: unconditionally for the two actions
   * that create entries, and exactly when the entry existed for the others.
   */
  lemma GettersAfterMarks(ms: Modules, moduleId: int, conceptId: int)
    ensures IsThemeViewed(ThemeViewed(ms, moduleId), moduleId)
    ensures IsConceptIntroCompleted(ConceptIntroCompleted(ms, moduleId, conceptId), moduleId, conceptId)
    ensures IsReflectionViewed(ReflectionViewed(ms, moduleId), moduleId) <==> moduleId in ms
    ensures IsModuleCompleted(ModuleCompleted(ms, moduleId), moduleId) <==> moduleId in ms
    ensures IsConceptPracticeCompleted(ConceptPracticeCompleted(ms, moduleId, conceptId), moduleId, conceptId)
            <==> GetConceptProgress(ms, moduleId, conceptId).Some?
    ensures IsConceptSummaryViewed(ConceptSummaryViewed(ms, moduleId, conceptId), moduleId, conceptId)
            <==> GetConceptProgress(ms, moduleId, conceptId).Some?
  {
  }

  /** The module-level actions never touch concept entries. */
  lemma ModuleActionsKeepConceptFlags(ms: Modules, moduleId: int, m: int, c: int)
    ensures IsConceptSummaryViewed(ThemeViewed(ms, moduleId), m, c) == IsConceptSummaryViewed(ms, m, c)
    ensures IsConceptSummaryViewed(ReflectionViewed(ms, moduleId), m, c) == IsConceptSummaryViewed(ms, m, c)
    ensures IsConceptSummaryViewed(ModuleCompleted(ms, moduleId), m, c) == IsConceptSummaryViewed(ms, m, c)
  {
  }

  /** The concept-level actions never touch module flags, nor any other concept's summary flag. */
  lemma ConceptActionsKeepOtherFlags(ms: Modules, moduleId: int, conceptId: int, m: int, c: int)
    ensures IsThemeViewed(ConceptIntroCompleted(ms, moduleId, conceptId), m) == IsThemeViewed(ms, m)
    ensures IsThemeViewed(ConceptSummaryViewed(ms, moduleId, conceptId), m) == IsThemeViewed(ms, m)
    ensures IsModuleCompleted(ConceptSummaryViewed(ms, moduleId, conceptId), m) == IsModuleCompleted(ms, m)
    ensures (m, c) != (moduleId, conceptId) ==>
      IsConceptSummaryViewed(ConceptIntroCompleted(ms, moduleId, conceptId), m, c) == IsConceptSummaryViewed(ms, m, c)
    ensures (m, c) != (moduleId, conceptId) ==>
      IsConceptSummaryViewed(ConceptSummaryViewed(ms, moduleId, conceptId), m, c) == IsConceptSummaryViewed(ms, m, c)
  {
  }

  /**
   * Finishing a reflection marks it viewed and then marks the module
   * completed; both flags end up set exactly when the module had an entry.
   */
  lemma ReflectionThenCompleted(ms: Modules, moduleId: int)
    ensures var r := ModuleCompleted(ReflectionViewed(ms, moduleId), moduleId);
      (IsReflectionViewed(r, moduleId) && IsModuleCompleted(r, moduleId)) <==> moduleId in ms
  {
  }

  /** The reset state reads false everywhere, has no entries and a zero percentage. */
  lemma ResetReadsDefaults(moduleId: int, conceptId: int, total: int)
    ensures var ms: Modules := map[];
      && !IsThemeViewed(ms, moduleId) && !IsReflectionViewed(ms, moduleId) && !IsModuleCompleted(ms, moduleId)
      && !IsConceptIntroCompleted(ms, moduleId, conceptId)
      && !IsConceptPracticeCompleted(ms, moduleId, conceptId)
      && !IsConceptSummaryViewed(ms, moduleId, conceptId)
      && GetModuleProgress(ms, moduleId).None? && GetConceptProgress(ms, moduleId, conceptId).None?
      && ConceptCompletionPercentage(ms, moduleId, total) == 0
  {
  }

  /**
   * The percentage counts stored summary-viewed concepts and is not clamped:
   * within 0..100 while they are at most the total, above 100 once they reach
   * 100.5% of it.
   */
  lemma {:induction false} PercentageRange(ms: Modules, moduleId: int, totalConcepts: int)
    requires moduleId in ms && totalConcepts > 0
    ensures SummaryViewedCount(ms[moduleId]) <= totalConcepts ==>
      0 <= ConceptCompletionPercentage(ms, moduleId, totalConcepts) <= 100
    ensures SummaryViewedCount(ms[moduleId]) == totalConcepts ==>
      ConceptCompletionPercentage(ms, moduleId, totalConcepts) == 100
    ensures ConceptCompletionPercentage(ms, moduleId, totalConcepts) > 100 <==>
      200 * SummaryViewedCount(ms[moduleId]) >= 201 * totalConcepts
  {
    var k := SummaryViewedCount(ms[moduleId]);
    if k <= totalConcepts {
      Rounding.RoundPercentBounds(k, totalConcepts);
    }
    Rounding.RoundPercentAbove100(k, totalConcepts);
  }

  /** Viewing a summary adds exactly that concept to the counted ones, so the count grows by at most one. */
  lemma {:induction false} SummaryViewedCountStep(ms: Modules, moduleId: int, conceptId: int)
    requires GetConceptProgress(ms, moduleId, conceptId).Some?
    ensures var r := ConceptSummaryViewed(ms, moduleId, conceptId);
      && SummaryViewedIds(r[moduleId]) == SummaryViewedIds(ms[moduleId]) + {conceptId}
      && SummaryViewedCount(r[moduleId]) ==
           SummaryViewedCount(ms[moduleId]) + (if ms[moduleId].concepts[conceptId].summaryViewed then 0 else 1)
  {
    var r := ConceptSummaryViewed(ms, moduleId, conceptId);
    var before := SummaryViewedIds(ms[moduleId]);
    assert SummaryViewedIds(r[moduleId]) == before + {conceptId};
    if ms[moduleId].concepts[conceptId].summaryViewed {
      assert before + {conceptId} == before;
    } else {
      assert conceptId !in before;
      assert |before + {conceptId}| == |before| + 1;
    }
  }

  /**
   * The gating walk-through on a fresh store: theme, intro, practice and
   * summary of one concept, then module completion; each getter reads true
   * right after its action and every flag is still set at the end.
   */
  lemma {:induction false} GatingFlowScenario(moduleId: int, conceptId: int)
    ensures
      var s1 := ThemeViewed(map[], moduleId);
      var s2 := ConceptIntroCompleted(s1, moduleId, conceptId);
      var s3 := ConceptPracticeCompleted(s2, moduleId, conceptId);
      var s4 := ConceptSummaryViewed(s3, moduleId, conceptId);
      var s5 := ModuleCompleted(s4, moduleId);
      && IsThemeViewed(s1, moduleId)
      && IsConceptIntroCompleted(s2, moduleId, conceptId)
      && IsConceptPracticeCompleted(s3, moduleId, conceptId)
      && IsConceptSummaryViewed(s4, moduleId, conceptId)
      && IsModuleCompleted(s5, moduleId)
      && IsThemeViewed(s5, moduleId) && !IsReflectionViewed(s5, moduleId)
      && IsConceptIntroCompleted(s5, moduleId, conceptId)
      && IsConceptPracticeCompleted(s5, moduleId, conceptId)
      && ConceptCompletionPercentage(s5, moduleId, 1) == 100
  {
    var s1 := ThemeViewed(map[], moduleId);
    var s2 := ConceptIntroCompleted(s1, moduleId, conceptId);
    var s3 := ConceptPracticeCompleted(s2, moduleId, conceptId);
    var s4 := ConceptSummaryViewed(s3, moduleId, conceptId);
    var s5 := ModuleCompleted(s4, moduleId);
    assert s5[moduleId].concepts == map[conceptId := NewConcept(conceptId).(introCompleted := true, practiceCompleted := true, summaryViewed := true)];
    assert SummaryViewedIds(s5[moduleId]) == {conceptId};
    Rounding.RoundPercentUnique(1, 1, 100);
  }
}
