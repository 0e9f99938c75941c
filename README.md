# BookAction learner progress, in Dafny

BookAction is a course front end. Learners work through modules. Each module
has a theme, a sequence of concepts, and a closing reflection. Each concept
has an intro, a practice quiz and a summary. This project models the logic
that records a learner's progress and decides what is locked, unlocked or
shown. It covers both generations of the front end and the mock back end
that serves the course.

- **Progress store** (`ProgressStore`). A map from module id to module
  progress, each holding a map from concept id to concept progress. The
  actions are specified as functions on that map, and the store object is a
  class whose methods replace its `modules` field. The getters read `false`
  for anything missing. The completion percentage uses half-up rounding,
  computed in integers (`Rounding`).
- **Gating** (`Gating`, `ConceptItem`, `ModuleItem`, `Profile`). Module
  statistics and the concept-intro access rule, both as functions of the
  loaded overview and the store. From these come the derived state of a
  concept row, of a module card and of the profile page.
- **Legacy progression** (`LegacyStore`, `LegacyApp`, `LegacyLearn`). A
  duplicate-free list store, and the single-page application's page state
  machine. Also the learn page's lock rules, written once for the Set-based
  page and the array-based page, and proved to agree between the two.
- **Mock back end** (`MockTables`, `MockApi`, `StableSort`).
  - Load-time numbering of modules, concepts, quizzes and reflections, as a
    method with nested loops. It is proved equal to a declarative definition.
  - Lookups that fail for unknown ids.
  - The overview and quiz lists, ordered by `order_index` with a stable sort.
  - Quiz scoring and reflection submission.
- **Route guard** (`AuthGuard`). The redirect and render decisions of the
  authentication guard, plus its hydration flags.

Every percentage is `Math.round(100 * k / n)`. `Rounding.RoundPercent`
computes it exactly, as the unique integer r with
(2r - 1)n <= 200k < (2r + 1)n. JavaScript values that the model needs beyond
integers are written out: `undefined` is `Option.None`, a thrown error is
`Result.Err`, a `Map` is a list of entries in insertion order, and a quiz
score is a real number or `NotANumber`.

## Model

| member | source | states |
|---|---|---|
| Rounding.RoundPercent | lib/state/progressStore.ts:245 | `Math.round(100k/n)` is the integer r with (2r-1)n <= 200k < (2r+1)n, so halves round up |
| Rounding.RoundPercentUnique | lib/hooks/useGating.ts:21-23 | that bracket determines the rounded value uniquely |
| Rounding.RoundPercentBounds | lib/hooks/useGating.ts:21-23 | for 0 <= k <= n the percentage is within 0..100; it is 0 at k = 0 and 100 at k = n |
| Rounding.RoundPercentAbove100 | lib/state/progressStore.ts:239-246 | nothing clamps the result: it exceeds 100 exactly when 200k >= 201n |
| Rounding.RoundPercentMonotone | app/profile/page.tsx:84-87 | more completed items never lower the percentage |
| Course.FindModule | lib/hooks/useGating.ts:9 | `find` returns the first module with the id; none exactly when no module has it |
| Course.FindModuleAt | lib/hooks/useGating.ts:51 | the module at a position is found by its id when no earlier module shares that id |
| ProgressStore.GetModuleProgress | lib/state/progressStore.ts:217 | the stored entry when the module has one, otherwise none |
| ProgressStore.GetConceptProgress | lib/state/progressStore.ts:219-220 | the stored concept entry when both the module and the concept have entries, otherwise none |
| ProgressStore.IsThemeViewed | lib/state/progressStore.ts:222 | true iff the module's entry exists and has `themeViewed` |
| ProgressStore.IsConceptIntroCompleted | lib/state/progressStore.ts:224-225 | true iff both entries exist and the concept has `introCompleted` |
| ProgressStore.IsConceptPracticeCompleted | lib/state/progressStore.ts:227-228 | true iff both entries exist and the concept has `practiceCompleted` |
| ProgressStore.IsConceptSummaryViewed | lib/state/progressStore.ts:230-231 | true iff both entries exist and the concept has `summaryViewed` |
| ProgressStore.IsReflectionViewed | lib/state/progressStore.ts:233-234 | true iff the module's entry exists and has `reflectionViewed` |
| ProgressStore.IsModuleCompleted | lib/state/progressStore.ts:236-237 | true iff the module's entry exists and has `completed` |
| ProgressStore.SummaryViewedIds | lib/state/progressStore.ts:242-244 | a concept is counted exactly when its stored entry has `summaryViewed` |
| ProgressStore.SummaryViewedCount | lib/state/progressStore.ts:242-244 | the count is the size of the set of stored concepts whose summary was viewed, and never exceeds the number of stored concepts |
| ProgressStore.ConceptCompletionPercentage | lib/state/progressStore.ts:239-246 | 0 for a missing module or a zero total; otherwise the half-up rounding of 100 times the stored summary-viewed count over the total, for a negative total as well as a positive one |
| ProgressStore.ThemeViewed | lib/state/progressStore.ts:76-91 | creates a missing module entry (flags false, no concepts); otherwise sets only `themeViewed`; other modules are untouched |
| ProgressStore.ReflectionViewed | lib/state/progressStore.ts:93-103 | no change when the module entry is missing; otherwise sets only `reflectionViewed` |
| ProgressStore.ModuleCompleted | lib/state/progressStore.ts:105-115 | no change when the module entry is missing; otherwise sets only `completed` |
| ProgressStore.ConceptIntroCompleted | lib/state/progressStore.ts:118-148 | creates missing module and concept entries with default values; sets only `introCompleted`; sibling concepts and other modules are unchanged |
| ProgressStore.WithConcept | lib/state/progressStore.ts:156-167 | replaces one concept entry and keeps the module's flags, its sibling concepts and the other modules |
| ProgressStore.ConceptPracticeCompleted | lib/state/progressStore.ts:150-168 | no change unless both entries exist; otherwise sets only `practiceCompleted` |
| ProgressStore.ConceptSummaryViewed | lib/state/progressStore.ts:170-188 | no change unless both entries exist; otherwise sets only `summaryViewed` |
| ProgressStore.QuizAnswerSaved | lib/state/progressStore.ts:190-214 | no change unless both entries exist; otherwise overwrites the answers for that quiz id only, keeping the other answers and all flags |
| ProgressStore.Store.constructor | lib/state/progressStore.ts:65-68 | the initial state is user 1 with no module entries |
| ProgressStore.Store.MarkThemeViewed | lib/state/progressStore.ts:76-91 | the new `modules` is `ThemeViewed` of the old one; the user is unchanged |
| ProgressStore.Store.MarkReflectionViewed | lib/state/progressStore.ts:93-103 | the new `modules` is `ReflectionViewed` of the old one |
| ProgressStore.Store.MarkModuleCompleted | lib/state/progressStore.ts:105-115 | the new `modules` is `ModuleCompleted` of the old one |
| ProgressStore.Store.MarkConceptIntroCompleted | lib/state/progressStore.ts:118-148 | the new `modules` is `ConceptIntroCompleted` of the old one |
| ProgressStore.Store.MarkConceptPracticeCompleted | lib/state/progressStore.ts:150-168 | the new `modules` is `ConceptPracticeCompleted` of the old one |
| ProgressStore.Store.MarkConceptSummaryViewed | lib/state/progressStore.ts:170-188 | the new `modules` is `ConceptSummaryViewed` of the old one |
| ProgressStore.Store.SaveQuizAnswer | lib/state/progressStore.ts:190-214 | the new `modules` is `QuizAnswerSaved` of the old one |
| ProgressStore.Store.Reset | lib/state/progressStore.ts:248 | back to user 1 with no module entries |
| ProgressStore.MarksIdempotent | lib/state/progressStore.ts:76-214 | applying any action twice with the same arguments gives the state that applying it once gives |
| ProgressStore.AbsentReadsFalse | lib/state/progressStore.ts:217-237 | every getter reads false, or undefined, for a module or concept without an entry |
| ProgressStore.GettersAfterMarks | lib/state/progressStore.ts:222-237 | each getter holds after its action: always for theme and intro, exactly when the entry existed for the others |
| ProgressStore.ModuleActionsKeepConceptFlags | lib/state/progressStore.ts:76-115 | marking theme, reflection or completion leaves every concept's summary flag as it was |
| ProgressStore.ConceptActionsKeepOtherFlags | lib/state/progressStore.ts:118-188 | intro and summary actions leave every module's theme and completion flags, and every other concept's summary flag, as they were |
| ProgressStore.ReflectionThenCompleted | lib/state/progressStore.ts:93-115 | marking reflection then completion sets both flags exactly when the module had an entry |
| ProgressStore.ResetReadsDefaults | lib/state/progressStore.ts:248 | after a reset every getter reads false or undefined, and the percentage is 0 |
| ProgressStore.PercentageRange | lib/state/progressStore.ts:239-246 | within 0..100 while the stored count is at most the total, and 100 when they are equal; above 100 exactly when 200k >= 201n |
| ProgressStore.SummaryViewedCountStep | lib/state/progressStore.ts:170-188 | viewing a summary adds exactly that concept to the counted set |
| ProgressStore.GatingFlowScenario | tests/integration/quiz-flow.test.tsx:208-233 | on a fresh store, theme, intro, practice, summary and module completion each make their getter true, and all flags stay set |
| Gating.OverviewConcepts | lib/hooks/useGating.ts:9-10 | no concepts while the overview is not loaded or when no module has the id; a non-empty result is the concept list of a module with that id |
| Gating.CountSummaryViewed | lib/hooks/useGating.ts:17-19 | the count is the number of list positions whose concept has its summary viewed (a repeated concept counts at each position, as `filter(...).length` does); it is at most the list's length, equal to it exactly when all are viewed, and 0 exactly when none is |
| Gating.ModuleStatsOf | lib/hooks/useGating.ts:5-33 | the total is the overview's concept count (0 when the module is absent); completed is the count of those concepts with the summary viewed, so 0 <= completed <= total; the percentage is `Math.round(100 * completed / total)` by the half-up bracket, within 0..100 (0 for no concepts); the three flags equal the store getters |
| Gating.CanAccessConceptIntro | lib/hooks/useGating.ts:35-67 | access needs a loaded overview and a viewed theme; orderIndex 1 then always opens; any other orderIndex opens only when it is at least 2 and some listed concept of the module has its summary viewed (CanAccessRule gives the exact iff) |
| Gating.FailClosed | lib/hooks/useGating.ts:42-45 | no access while the overview is not loaded or the theme is not viewed |
| Gating.CanAccessRule | lib/hooks/useGating.ts:39-64 | access holds iff the overview is loaded, the theme is viewed, and either orderIndex is 1 or orderIndex-2 indexes a listed concept whose summary is viewed |
| Gating.SequentialUnlock | lib/hooks/useGating.ts:56-62 | with orderIndex = index + 1 in a listed module, the first concept opens with the theme and each later one with its predecessor's summary |
| Gating.ThemeGate | lib/hooks/useGating.ts:45-48 | the first concept is closed before the theme is viewed and open right after |
| Gating.SummaryUnlocksNext | lib/hooks/useGating.ts:56-62 | viewing a concept's summary opens the next concept, provided the theme is viewed and the concept has an entry |
| Gating.ReflectionRule | components/learn/ModuleItem.tsx:106-110 | completed equals total exactly when every listed concept's summary is viewed; without an overview both are 0 |
| Gating.ScenarioStates | tests/integration/quiz-flow.test.tsx:208-233 | the exact store states of the walk-through of one module through two concepts |
| Gating.TwoConceptScenario | tests/integration/quiz-flow.test.tsx:208-233 | in that walk-through, access and the percentage move from closed to 50 to 100 and the reflection rule holds at the end |
| ConceptItem.RowOf | components/learn/ConceptItem.tsx:15-76 | orderIndex is index + 1; the link goes to the intro iff access; the default is prevented, and the hint shows, iff no access; the icon is a check iff completed, else a lock iff no access, else the order number; play shows iff access and not completed |
| ConceptItem.RowOpensInSequence | components/learn/ConceptItem.tsx:17-24 | a row's link opens exactly when the theme is viewed and the row is first or the previous concept's summary is viewed |
| ModuleItem.CardOf | components/learn/ModuleItem.tsx:16-140 | the theme is always unlocked and linked; Start shows iff it is not viewed; the reflection opens iff every listed summary is viewed; its icon is a check, a message or a lock in that priority; the displayed percentage is the statistic's |
| Profile.OverallProgress | app/profile/page.tsx:84-87 | 0 for no concepts, otherwise the rounded share; within 0..100 while completed <= total |
| Profile.TrophyFor | app/profile/page.tsx:92-119 | trophy i belongs to overview module i; it is earned iff that module's store entry is completed; a locked trophy shows the stored summary count over the listed concept count, falling back to 3 |
| Profile.EarnedCount | app/profile/page.tsx:121 | the earned count never exceeds the number of trophies |
| Profile.ComputeProfile | app/profile/page.tsx:46-121 | a placeholder iff loading or no overview; otherwise the loop's totals, the overall percentage, two trophies, an earned count of at most 2, and the lessons remaining |
| Profile.CompletedWithinTotal | app/profile/page.tsx:64-87 | when stored summaries belong to listed concepts, completed <= total and the overall percentage is within 0..100 |
| Profile.StoredCompletionCanExceedTotal | app/profile/page.tsx:210 | otherwise the lessons-to-go figure can be negative (-1 in the exhibited state) |
| Profile.TrophyNeedsCompletion | app/profile/page.tsx:105 | a trophy is earned iff its module is marked completed; viewing summaries never earns it |
| LegacyStore.AddOnce | src/store/useProgressStore.ts:24-32 | the id ends up present; the list is unchanged iff it was already there, else it gains exactly that id at the end; no duplicates are introduced |
| LegacyStore.AddOnceIdempotent | src/store/useProgressStore.ts:24-27 | completing an id twice is completing it once |
| LegacyStore.AddOnceAppendsLast | src/store/useProgressStore.ts:26 | a new id goes last, and every earlier id keeps its position |
| LegacyStore.Store.constructor | src/store/useProgressStore.ts:20-22 | both lists start empty and the streak starts at 7 |
| LegacyStore.Store.CompleteConcept | src/store/useProgressStore.ts:24-27 | the concept list becomes `AddOnce` of the old one; it stays free of duplicates; the theme list and the streak are unchanged |
| LegacyStore.Store.CompleteTheme | src/store/useProgressStore.ts:29-32 | the same for the theme list |
| LegacyStore.Store.SetStreak | src/store/useProgressStore.ts:34 | replaces the streak only, keeping both lists free of duplicates |
| LegacyStore.Store.IsConceptCompleted | src/store/useProgressStore.ts:36 | `includes`: true iff some position of the concept list holds the id |
| LegacyStore.Store.IsThemeCompleted | src/store/useProgressStore.ts:37 | `includes`: true iff some position of the theme list holds the id |
| LegacyApp.ModuleIdForConcept | src/legacy/App.tsx:44-51 | the id of the first module listing the concept, and 1 when no module lists it |
| LegacyApp.IndexOfConcept | src/legacy/App.tsx:58 | `findIndex`: the first position holding the id, or -1 when there is none |
| LegacyApp.NextConceptInModule | src/legacy/App.tsx:54-64 | none when the module is missing, the concept is absent, or it is last; otherwise the id after it |
| LegacyApp.IsModuleComplete | src/legacy/App.tsx:67-71 | holds iff the module exists and all of its concepts are completed |
| LegacyApp.TotalConcepts | src/legacy/App.tsx:40 | the sum of concept counts is the length of the list of all concept ids |
| LegacyApp.AllModulesCompleted | src/legacy/App.tsx:41 | holds iff the completed set is as large as the list of all concept ids; MedalMeansEveryModuleComplete gives its meaning |
| LegacyApp.App.constructor | src/legacy/App.tsx:34-37 | starts on the learn page with nothing completed and a streak of 7 |
| LegacyApp.App.Navigate | src/legacy/App.tsx:73-79 | "learn" and "profile" switch the page; any other value leaves it; the streak is unchanged and so are both completed sets |
| LegacyApp.App.StartTheme | src/legacy/App.tsx:81-83 | opens the theme page of the module; the streak is unchanged and so are both completed sets |
| LegacyApp.App.StartConcept | src/legacy/App.tsx:85-87 | opens the concept's intro; the streak is unchanged and so are both completed sets |
| LegacyApp.App.StartFromTheme | src/legacy/App.tsx:160-171 | on a shown theme, records the theme and opens the module's first concept; without concepts the handler fails after recording the theme; the completed concepts and the streak are unchanged |
| LegacyApp.App.CompleteConceptIntro | src/legacy/App.tsx:89-91 | moves to the practice intro; the streak is unchanged and so are both completed sets |
| LegacyApp.App.StartPractice | src/legacy/App.tsx:93-95 | moves to practice; the streak is unchanged and so are both completed sets |
| LegacyApp.App.CompletePractice | src/legacy/App.tsx:97-104 | adds the concept to the completed set and shows its summary, tagged with its module; the theme set and the streak are unchanged |
| LegacyApp.App.ContinueFromSummary | src/legacy/App.tsx:106-116 | moves to the next concept's intro when there is a truthy next id, else to the module reflection; the streak is unchanged and so are both completed sets |
| LegacyApp.App.CompleteReflection | src/legacy/App.tsx:118-120 | moves to the module-completed page; the streak is unchanged and so are both completed sets |
| LegacyApp.App.BackToLearn | src/legacy/App.tsx:122-129 | shows the medal iff the completed count equals the concept total, else the learn page; the streak is unchanged and so are both completed sets |
| LegacyApp.App.GoToLearn | src/legacy/App.tsx:172 | the back buttons return to the learn page; the streak is unchanged and so are both completed sets |
| LegacyApp.App.ShowMedalWhenDone | src/legacy/App.tsx:132-136 | replaces the learn page, and only it, with the medal once the completed count equals the concept total; the streak is unchanged and so are both completed sets |
| LegacyApp.NextWalksTheModule | src/legacy/App.tsx:54-64 | with distinct concept ids, the concept after position i is the one at i+1, and the last concept has none |
| LegacyApp.SummaryCarriesModule | src/legacy/App.tsx:97-104 | the summary page carries the module that lists the concept |
| LegacyApp.InAllConceptIds | src/legacy/App.tsx:40 | an id is among all concept ids exactly when some module lists it |
| LegacyApp.MedalMeansEveryModuleComplete | src/legacy/App.tsx:40-41 | with distinct ids, and only listed concepts completed, the count-based medal condition holds iff every module is complete |
| LegacyLearn.CountDone | src/app/page.tsx:41-43 | the completed count is the number of positions whose concept the membership test accepts; it is at most the concept count, equal to it iff every concept is completed, and 0 iff none is |
| LegacyLearn.RowAt | src/app/page.tsx:150-219 | the row of a concept; its states are given by `RowStates` and `SequentialLock` |
| LegacyLearn.Percentage | src/app/page.tsx:42 | none for an empty module, where the page divides by zero; otherwise `Math.round(100 * completed / total)` by the half-up bracket, within 0..100, 100 when all are done and 0 when none is |
| LegacyLearn.CardAt | src/app/page.tsx:40-144 | the completed count is CountDone over the module's concepts, the Done badge holds iff every concept is accepted (iff completed equals total), the displayed percentage is Percentage of those counts, `themeCompleted` and the module lock from the membership tests, the theme's Start iff the module is open and the theme not completed, Review iff the theme is completed, and one row per concept |
| LegacyLearn.Cards | src/app/page.tsx:40 | one card per module, in order |
| LegacyLearn.CountDoneAgree | src/pages/LearnPage.tsx:39 | the count depends only on which ids the membership test accepts |
| LegacyLearn.CardsAgree | src/pages/LearnPage.tsx:39-45 | two membership tests that agree give the same cards |
| LegacyLearn.ArrayPageAgreesWithSetPage | src/pages/LearnPage.tsx:39-153 | the array-based page and the Set-based page show the same cards for the same completed ids |
| LegacyLearn.ModuleLockChain | src/app/page.tsx:47 | the first module is never locked; module i > 0 is locked iff module i-1's card lacks the Done badge |
| LegacyLearn.RowStates | src/app/page.tsx:150-219 | Start iff open and not completed; Review iff completed; never both; at most one hint; no hint iff completed in an open module |
| LegacyLearn.SequentialLock | src/app/page.tsx:152-155 | in an open module, a concept is locked iff neither it nor its predecessor (the theme, for the first) is completed |
| LegacyLearn.LockedModuleLocksAll | src/app/page.tsx:127-155 | in a locked module every row is locked with no Start, and the theme shows no Start |
| LegacyLearn.CompletionNeverLocks | src/app/page.tsx:47-155 | completing more never locks an open module or row |
| LegacyLearn.AllCompletedAllOpen | src/app/page.tsx:155-219 | with everything completed, every row is open and offers Review |
| StableSort.Insert | lib/api/mockData.ts:100 | the result holds the old elements and the inserted one, as a multiset |
| StableSort.SortBy | lib/api/mockData.ts:100 | the sort result is ordered by key and is a permutation of the input |
| StableSort.SortByMembers | lib/api/mockData.ts:104 | sorting neither adds nor drops elements |
| StableSort.InsertSorted | lib/api/mockData.ts:100 | inserting keeps a sequence sorted |
| StableSort.WithKeyInsert | lib/api/mockData.ts:100 | inserting into a sorted sequence places the element after every element that shares its key |
| StableSort.SortByStable | lib/api/mockData.ts:104 | for every key, the elements with that key keep their input order |
| MockTables.BuildTables | lib/api/mockData.ts:66-93 | the nested counter loops build exactly the declaratively numbered tables |
| MockTables.ConceptEntriesFacts | lib/api/mockData.ts:84-86 | concept ids run 1..n across modules; each concept points at the module that lists it; module numbers never decrease |
| MockTables.QuizEntriesFacts | lib/api/mockData.ts:88-91 | quiz ids run 1..n across concepts, and each quiz points at a concept that lists it, in order |
| MockTables.InitialTablesNumbered | lib/api/mockData.ts:66-93 | all four tables are numbered from 1 without gaps |
| MockTables.QuizzesPointToConcepts | lib/api/mockData.ts:88-91 | with concepts numbered from 1, every quiz's concept id is the number of a concept entry whose concept lists that quiz |
| MockTables.ModulesAndReflections | lib/api/mockData.ts:77-82 | module k and reflection k are both made from content element k, so reflection k belongs to module k |
| MockApi.Get | lib/api/mockData.ts:134 | `map.get` finds the entry with the id, or none when no entry has it |
| MockApi.GetNumbered | lib/api/mockData.ts:134 | in a numbered table, id n is found exactly when it is in range, at position n-1 |
| MockApi.GetUnique | lib/api/mockData.ts:134 | with unique ids, `map.get` of an entry's id returns that entry |
| MockApi.Filter | lib/api/mockData.ts:103 | keeps exactly the entries the test accepts |
| MockApi.FilterIncreasing | lib/api/mockData.ts:322-325 | filtering keeps strictly increasing ids increasing |
| MockApi.GetModuleTheme | lib/api/mockData.ts:133-146 | fails with module-not-found exactly for an unknown id; otherwise returns the module's theme |
| MockApi.GetConceptTutorial | lib/api/mockData.ts:151-173 | fails with concept-not-found exactly for an unknown id; otherwise returns the concept's tutorial fields |
| MockApi.GetConceptSummary | lib/api/mockData.ts:238-249 | fails exactly for an unknown concept; otherwise returns its summary and optional next-chapter intro |
| MockApi.GetModuleReflection | lib/api/mockData.ts:254-265 | fails exactly for an unknown module; otherwise returns a text prompt from its reflection |
| MockApi.LookupsOnInitialTables | lib/api/mockData.ts:133-258 | on the initial tables, module lookups succeed exactly for 1..modules and concept lookups exactly for 1..concepts |
| MockApi.OverviewConcepts | lib/api/mockData.ts:102-109 | one item per concept of the module, none completed |
| MockApi.ModulesOverview | lib/api/mockData.ts:98-128 | one overview module per module entry, with progress 0 and its own concept items |
| MockApi.OverviewOrder | lib/api/mockData.ts:99-100 | modules are ordered by order_index, as a permutation, with equal keys in table order |
| MockApi.OverviewConceptsOrder | lib/api/mockData.ts:102-104 | a module's concept items follow its concept entries ordered by order_index, stably |
| MockApi.OverviewConceptFromEntry | lib/api/mockData.ts:102-103 | every concept item comes from a concept entry of that module |
| MockApi.OverviewConceptOfEntry | lib/api/mockData.ts:102-103 | every concept entry of the module has an item |
| MockApi.OverviewConceptsNumbered | lib/api/mockData.ts:102-109 | in any table numbered from 1, a module lists concept c exactly when concept entry c belongs to it |
| MockApi.OverviewConceptsExact | lib/api/mockData.ts:102-109 | on the initial tables, a module lists concept c exactly when concept entry c belongs to it |
| MockApi.ConceptQuiz | lib/api/mockData.ts:184-198 | one question per quiz of the concept, ordered by orderIndex; empty for a concept without quizzes |
| MockApi.QuestionFromEntry | lib/api/mockData.ts:184-185 | every question is one of the concept's quizzes |
| MockApi.QuestionOfEntry | lib/api/mockData.ts:184-185 | every quiz of the concept appears as a question |
| MockApi.ConceptQuizStable | lib/api/mockData.ts:186 | quizzes with equal orderIndex keep their table order |
| MockApi.SingleChoiceScore | lib/api/mockData.ts:218-219 | 1 iff the first selected index equals the first correct one (two missing ones compare equal), else 0 |
| MockApi.MultipleChoiceScore | lib/api/mockData.ts:221-226 | the distinct correct indices selected, over the length of the correct list; NaN iff that list is empty |
| MockApi.SubmitQuizAnswer | lib/api/mockData.ts:204-233 | fails exactly for an unknown quiz; otherwise echoes both index lists together with the score of the quiz's type |
| MockApi.SingleChoiceEmptyScoresOne | lib/api/mockData.ts:219 | empty selected and correct lists score 1 |
| MockApi.MultipleChoiceRange | lib/api/mockData.ts:221-226 | a multiple-choice score is within 0..1 |
| MockApi.MultipleChoiceMonotone | lib/api/mockData.ts:221-226 | selecting more never lowers the score; extra wrong selections leave it unchanged |
| MockApi.MultipleChoiceFull | lib/api/mockData.ts:221-226 | with no repeated correct index, the score is 1 iff every correct index was selected |
| MockApi.MultipleChoiceCountsRepeats | lib/api/mockData.ts:225 | repeated correct indices count in the divisor ([2,2] answered [2] scores 0.5); an empty correct list scores NaN |
| MockApi.ReflectionFor | lib/api/mockData.ts:276-278 | `find` returns the first reflection entry of the module, or none when there is none |
| MockApi.SubmitModuleReflection | lib/api/mockData.ts:270-293 | fails exactly when no reflection belongs to the module; otherwise a receipt echoing the answer and the user, with that reflection's id and time spent (0 when absent) |
| MockApi.ReflectionOnInitialTables | lib/api/mockData.ts:276-292 | on the initial tables, a submission succeeds exactly for modules 1..n, and reflection id m belongs to module m |
| MockApi.ModuleIdForConcept | lib/api/mockData.ts:317-319 | the module of a known concept; undefined for an unknown one |
| MockApi.ConceptIdsForModule | lib/api/mockData.ts:322-326 | the ids of the module's concept entries, in table order |
| MockApi.ListedConceptModule | lib/api/mockData.ts:317-325 | every concept listed for a module looks up to that module, when concept ids are unique |
| MockApi.ModuleConceptListed | lib/api/mockData.ts:317-325 | every concept that looks up to a module is listed for it |
| MockApi.ConceptModuleRoundTrip | lib/api/mockData.ts:317-326 | with unique concept ids, c is listed for module m iff the module lookup of c gives m |
| MockApi.ConceptIdsIncreasing | lib/api/mockData.ts:322-325 | on the initial tables, a module's concept ids are strictly increasing |
| AuthGuard.EffectiveAuth | components/guards/AuthGuard.tsx:21-22 | before hydration the guard sees a signed-out user with no token; after hydration it sees the store |
| AuthGuard.RedirectFor | components/guards/AuthGuard.tsx:28-39 | to /login iff not (flag and token) on a non-public path; to /learn iff flag and token on /login or /register; one outcome per evaluation |
| AuthGuard.ViewFor | components/guards/AuthGuard.tsx:50-67 | a placeholder iff checking; afterwards nothing iff the flag is false on a non-public path; otherwise the page |
| AuthGuard.PublicPathsExact | components/guards/AuthGuard.tsx:12 | the public paths are exactly /login, /register and / |
| AuthGuard.RedirectOutcomes | components/guards/AuthGuard.tsx:28-39 | signed-in users are never sent to /login; others are never sent to /learn; / never redirects |
| AuthGuard.BeforeHydrationSignedOut | components/guards/AuthGuard.tsx:21-31 | before hydration every protected path redirects to /login and hides the page |
| AuthGuard.ViewIgnoresToken | components/guards/AuthGuard.tsx:63 | the render decision does not depend on the token |
| AuthGuard.FlagWithoutTokenShowsPage | components/guards/AuthGuard.tsx:28-67 | with the flag set but no token, a protected path redirects to /login while still showing the page |
| AuthGuard.GuardRedirect | components/guards/AuthGuard.tsx:21-31 | the effect on the hydration-filtered values; before hydration it redirects to /login iff the path is protected |
| AuthGuard.Guard.constructor | components/guards/AuthGuard.tsx:18-24 | starts not hydrated and checking |
| AuthGuard.Guard.TimerFires | components/guards/AuthGuard.tsx:42-48 | the timer sets hydrated and ends the check |
| AuthGuard.Guard.Evaluate | components/guards/AuthGuard.tsx:26-40 | one evaluation of the redirect effect on the guard's current flags |
| AuthGuard.Guard.Render | components/guards/AuthGuard.tsx:50-67 | a placeholder iff not hydrated; the page only once hydrated, and then only for a flagged user or a public path |

## Left out

- Persistence: the `persist` middleware, its storage key and version, and local storage. The stores live in memory.
- Network and caching: the overview arrives as an optional value (`None` while loading). Query caching, the HTTP client and the chat routes are not part of this model.
- Framework timing: React effects, `useMemo`, the zero-delay timer and `router.push`. The guard's decisions are plain functions, and the timer is a method called explicitly.
- Rendering: markup, class names and icons. Only the derived booleans, link targets and icon choices are kept.
- Floating-point display values: the un-rounded `progress` ratio on the learn pages, and the progress bar widths, clamps and locked-trophy bar values. `Math.round((k / n) * 100)` is modelled as exact rounding of 100k/n, so binary floating-point artefacts at exact halves are not captured.
- `updateConceptProgress` in lib/api/mockData.ts: it only echoes its arguments with wall-clock timestamps.
- The course content JSON is an input sequence to `MockTables.TablesOf` and `MockTables.BuildTables`. Its file import is not modelled.
- Default parameters (`userId = 1`) are explicit parameters of the functions that take them.
- The quiz list computed first and never used in `getConceptQuiz` (lib/api/mockData.ts:179-182) is omitted, since it does not affect the result.
- LegacyApp.App.StartFromTheme: the `TypeError` thrown for a module without concepts is modelled as `ok == false`, with the page unchanged. React keeps the theme update queued before the throw, and the model keeps it too.
- LegacyApp and LegacyLearn: the legacy `Module` records are modelled with the overview types (id, title, concepts). Themes, descriptions and tutorial tables are display data.
- LegacyLearn: the pages of src/app/page.tsx and src/pages/LearnPage.tsx are one derivation, parameterised by the membership test, instead of two copies.
- ProgressStore: the `getModuleProgress` and `is*` getters are functions of the state map, not store methods. The methods are specified by the transition functions on that map.
- ConceptItem.RowOf: `canAccess` comes from `Gating.CanAccessConceptIntro`, evaluated on the same overview and store. Hook subscription is not modelled.
- MockApi: tables are values passed to each call. The module-level `Map`s are built once by `MockTables.BuildTables`, and nothing mutates them afterwards.
- MockApi.GetConceptTutorial: the response is flattened into one record. The nested `goodExample`/`badExample` objects are not kept.
