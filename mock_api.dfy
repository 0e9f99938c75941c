/**
 * The mock API of lib/api/mockData.ts, answered from the tables built at load
 * time: lookups that fail for unknown ids, the ordered overview and quiz
 * lists, quiz scoring and reflection submission.
 */
module MockApi {
  import opened Wrappers
  import opened Collections
  import opened MockTables
  import Course
  import StableSort

  datatype LookupError =
    | ModuleNotFound(moduleId: int)
    | ConceptNotFound(conceptId: int)
    | QuizNotFound(quizId: int)
    | ReflectionNotFound(moduleId: int)

  /** `map.get(id)`: the value of the entry with that id, if any (the first, should ids repeat). */
  function Get<V>(entries: seq<Entry<V>>, id: int): (r: Option<V>)
    ensures r.None? <==> forall k :: 0 <= k < |entries| ==> entries[k].id != id
    ensures r.Some? ==> exists k :: 0 <= k < |entries| && entries[k].id == id && entries[k].value == r.value &&
                          forall k' :: 0 <= k' < k ==> entries[k'].id != id
  {
    if |entries| == 0 then None
    else if entries[0].id == id then Some(entries[0].value)
    else
      var r := Get(entries[1..], id);
      assert forall k :: 1 <= k < |entries| ==> entries[k] == entries[1..][k - 1];
      if r.Some? then
        assert exists k :: 0 <= k < |entries| && entries[k].id == id && entries[k].value == r.value &&
                 forall k' :: 0 <= k' < k ==> entries[k'].id != id by {
          var k :| 0 <= k < |entries[1..]| && entries[1..][k].id == id && entries[1..][k].value == r.value &&
                   forall k' :: 0 <= k' < k ==> entries[1..][k'].id != id;
          assert entries[k + 1] == entries[1..][k];
          assert forall k' :: 1 <= k' < k + 1 ==> entries[k'] == entries[1..][k' - 1];
        }
        r
      else r
  }

  /** In a table numbered from 1, id `n` is found exactly when it is in range, at position `n - 1`. */
  lemma {:induction false} GetNumbered<V>(entries: seq<Entry<V>>, id: int)
    requires Numbered(entries)
    ensures Get(entries, id) == if 1 <= id <= |entries| then Some(entries[id - 1].value) else None
  {
    if 1 <= id <= |entries| {
      assert entries[id - 1].id == id;
    }
  }

  /** `Array.from(map.entries()).filter(([, data]) => keep(data))`. */
  function Filter<V>(entries: seq<Entry<V>>, keep: V -> bool): (r: seq<Entry<V>>)
    ensures |r| <= |entries|
    ensures forall k :: 0 <= k < |r| ==> r[k] in entries && keep(r[k].value)
    ensures forall k :: 0 <= k < |entries| && keep(entries[k].value) ==> entries[k] in r
  {
    if |entries| == 0 then []
    else
      var last := entries[|entries| - 1];
      var p := entries[..|entries| - 1];
      assert entries == p + [last];
      Filter(p, keep) + (if keep(last.value) then [last] else [])
  }

  /** Ids strictly increase along the sequence. */
  predicate IdsIncreasing<V>(s: seq<Entry<V>>)
  {
    forall k1, k2 :: 0 <= k1 < k2 < |s| ==> s[k1].id < s[k2].id
  }

  /** Whatever a filter keeps lies below a bound that every entry lies below. */
  lemma FilterBelow<V>(entries: seq<Entry<V>>, keep: V -> bool, bound: int)
    requires forall k :: 0 <= k < |entries| ==> entries[k].id < bound
    ensures forall k :: 0 <= k < |Filter(entries, keep)| ==> Filter(entries, keep)[k].id < bound
  {
    var r := Filter(entries, keep);
    forall k | 0 <= k < |r| ensures r[k].id < bound {
      assert r[k] in entries;
      var i :| 0 <= i < |entries| && entries[i] == r[k];
    }
  }

  lemma IncreasingAppend<V>(s: seq<Entry<V>>, x: Entry<V>)
    requires IdsIncreasing(s)
    requires forall k :: 0 <= k < |s| ==> s[k].id < x.id
    ensures IdsIncreasing(s + [x])
  {
    var r := s + [x];
    forall k1, k2 | 0 <= k1 < k2 < |r| ensures r[k1].id < r[k2].id {
      assert r[k1] == s[k1];
      if k2 < |s| {
        assert r[k2] == s[k2];
      }
    }
  }

  /** Filtering keeps relative order: strictly increasing ids stay strictly increasing. */
  lemma {:induction false} FilterIncreasing<V>(entries: seq<Entry<V>>, keep: V -> bool)
    requires IdsIncreasing(entries)
    ensures IdsIncreasing(Filter(entries, keep))
  {
    if |entries| > 0 {
      var last := entries[|entries| - 1];
      var p := entries[..|entries| - 1];
      assert IdsIncreasing(p) by {
        forall k1, k2 | 0 <= k1 < k2 < |p| ensures p[k1].id < p[k2].id {
          assert p[k1] == entries[k1] && p[k2] == entries[k2];
        }
      }
      FilterIncreasing(p, keep);
      assert forall k :: 0 <= k < |p| ==> p[k].id < last.id by {
        forall k | 0 <= k < |p| ensures p[k].id < last.id {
          assert p[k] == entries[k];
        }
      }
      FilterBelow(p, keep, last.id);
      assert Filter(entries, keep) == Filter(p, keep) + (if keep(last.value) then [last] else []);
      if keep(last.value) {
        IncreasingAppend(Filter(p, keep), last);
      } else {
        assert Filter(p, keep) + [] == Filter(p, keep);
      }
    }
  }

  // ---------------------------------------------------------------------------
  // Lookups that fail for unknown ids

  datatype ThemeResponse = ThemeResponse(title: string, context: string, mediaUrl: string, mediaType: string, question: string)

  datatype TutorialResponse = TutorialResponse(
    title: string,
    definition: string,
    whyItWorks: string,
    goodStory: string,
    goodMediaUrl: string,
    badStory: string,
    badMediaUrl: string)

  datatype SummaryResponse = SummaryResponse(summaryContent: string, nextConceptIntro: Option<string>)

  datatype ReflectionResponse = ReflectionResponse(kind: string, prompt: string, mediaUrl: string)

  function ThemeOf(theme: ThemeContent): ThemeResponse
  {
    ThemeResponse(theme.title, theme.context, theme.mediaUrl, theme.mediaType, theme.question)
  }

  /** `getModuleTheme`. */
  function GetModuleTheme(t: Tables, moduleId: int): (r: Result<ThemeResponse, LookupError>)
    ensures r.Err? <==> Get(t.modules, moduleId).None?
    ensures r.Err? ==> r.error == ModuleNotFound(moduleId)
    ensures r.Ok? ==> r.value == ThemeOf(Get(t.modules, moduleId).value.theme)
  {
    match Get(t.modules, moduleId)
    case None => Err(ModuleNotFound(moduleId))
    case Some(m) => Ok(ThemeOf(m.theme))
  }

  /** `getConceptTutorial`. */
  function GetConceptTutorial(t: Tables, conceptId: int): (r: Result<TutorialResponse, LookupError>)
    ensures r.Err? <==> Get(t.concepts, conceptId).None?
    ensures r.Err? ==> r.error == ConceptNotFound(conceptId)
    ensures r.Ok? ==>
      var c := Get(t.concepts, conceptId).value.concept;
      r.value == TutorialResponse(c.title, c.definition, c.whyItWorks, c.tutorial.goodStory,
                                  c.tutorial.goodMediaUrl, c.tutorial.badStory, c.tutorial.badMediaUrl)
  {
    match Get(t.concepts, conceptId)
    case None => Err(ConceptNotFound(conceptId))
    case Some(data) =>
      var c := data.concept;
      Ok(TutorialResponse(c.title, c.definition, c.whyItWorks, c.tutorial.goodStory,
                          c.tutorial.goodMediaUrl, c.tutorial.badStory, c.tutorial.badMediaUrl))
  }

  /** `getConceptSummary`. */
  function GetConceptSummary(t: Tables, conceptId: int): (r: Result<SummaryResponse, LookupError>)
    ensures r.Err? <==> Get(t.concepts, conceptId).None?
    ensures r.Err? ==> r.error == ConceptNotFound(conceptId)
    ensures r.Ok? ==>
      var s := Get(t.concepts, conceptId).value.concept.summary;
      r.value == SummaryResponse(s.summaryContent, s.nextChapterIntro)
  {
    match Get(t.concepts, conceptId)
    case None => Err(ConceptNotFound(conceptId))
    case Some(data) => Ok(SummaryResponse(data.concept.summary.summaryContent, data.concept.summary.nextChapterIntro))
  }

  /** `getModuleReflection`: a text prompt from the module's reflection summary. */
  function GetModuleReflection(t: Tables, moduleId: int): (r: Result<ReflectionResponse, LookupError>)
    ensures r.Err? <==> Get(t.modules, moduleId).None?
    ensures r.Err? ==> r.error == ModuleNotFound(moduleId)
    ensures r.Ok? ==>
      var m := Get(t.modules, moduleId).value;
      r.value == ReflectionResponse("text", m.reflection.moduleSummary, m.reflection.moduleSummaryMediaUrl)
  {
    match Get(t.modules, moduleId)
    case None => Err(ModuleNotFound(moduleId))
    case Some(m) => Ok(ReflectionResponse("text", m.reflection.moduleSummary, m.reflection.moduleSummaryMediaUrl))
  }

  /**
   * On the initialised tables, module lookups succeed exactly for 1..|content|
   * and concept lookups exactly for 1..(number of concepts), each answering
   * from the content element with that number.
   */
  lemma LookupsOnInitialTables(content: seq<CourseModule>, moduleId: int, conceptId: int)
    ensures var t := TablesOf(content);
      && (GetModuleTheme(t, moduleId).Ok? <==> 1 <= moduleId <= |content|)
      && (GetModuleReflection(t, moduleId).Ok? <==> 1 <= moduleId <= |content|)
      && (1 <= moduleId <= |content| ==> GetModuleTheme(t, moduleId).value == ThemeOf(content[moduleId - 1].theme))
      && (GetConceptTutorial(t, conceptId).Ok? <==> 1 <= conceptId <= |t.concepts|)
      && (GetConceptSummary(t, conceptId).Ok? <==> 1 <= conceptId <= |t.concepts|)
  {
    ModulesAndReflections(content);
    InitialTablesNumbered(content);
    var t := TablesOf(content);
    GetNumbered(t.modules, moduleId);
    GetNumbered(t.concepts, conceptId);
  }

  // ---------------------------------------------------------------------------
  // The overview

  datatype OverviewModule = OverviewModule(
    id: int,
    title: string,
    description: string,
    theme: ThemeResponse,
    progress: int,
    concepts: seq<Course.ConceptListItem>)

  function ModuleOrder(e: Entry<CourseModule>): int { e.value.orderIndex }

  function ConceptOrder(e: Entry<ConceptData>): int { e.value.concept.orderIndex }

  function QuizOrder(e: Entry<QuizData>): int { e.value.quiz.orderIndex }

  /** The concept entries of a module, in table order. */
  function ConceptsOf(t: Tables, moduleId: int): seq<Entry<ConceptData>>
  {
    Filter(t.concepts, ConceptData.InModule(moduleId))
  }

  /** A module's overview concepts: its concept entries sorted by order_index, none completed. */
  function OverviewConcepts(t: Tables, moduleId: int): (r: seq<Course.ConceptListItem>)
    ensures |r| == |ConceptsOf(t, moduleId)|
    ensures forall i :: 0 <= i < |r| ==> !r[i].completed
  {
    var sorted := StableSort.SortBy(ConceptsOf(t, moduleId), ConceptOrder);
    seq(|sorted|, i requires 0 <= i < |sorted| =>
      Course.ConceptListItem(sorted[i].id, sorted[i].value.concept.title, false))
  }

  function OverviewOf(t: Tables, e: Entry<CourseModule>): OverviewModule
  {
    OverviewModule(e.id, e.value.title, e.value.description, ThemeOf(e.value.theme), 0, OverviewConcepts(t, e.id))
  }

  /** `getModulesOverview`: the module entries sorted by order_index, each with its own concepts. */
  function ModulesOverview(t: Tables): (r: seq<OverviewModule>)
    ensures |r| == |t.modules|
    ensures forall i :: 0 <= i < |r| ==> r[i].progress == 0 && r[i].concepts == OverviewConcepts(t, r[i].id)
  {
    var sorted := StableSort.SortBy(t.modules, ModuleOrder);
    seq(|sorted|, i requires 0 <= i < |sorted| => OverviewOf(t, sorted[i]))
  }

  /**
   * The overview lists every module entry once, ordered by order_index, with
   * modules of equal order_index in table order; each module's concept items
   * are exactly its own concept entries, ordered the same way.
   */
  lemma OverviewOrder(t: Tables, k: int)
    ensures var sorted := StableSort.SortBy(t.modules, ModuleOrder);
      && |ModulesOverview(t)| == |sorted|
      && (forall i :: 0 <= i < |sorted| ==> ModulesOverview(t)[i] == OverviewOf(t, sorted[i]))
      && multiset(sorted) == multiset(t.modules)
      && StableSort.SortedBy(sorted, ModuleOrder)
      && StableSort.WithKey(sorted, ModuleOrder, k) == StableSort.WithKey(t.modules, ModuleOrder, k)
  {
    StableSort.SortByStable(t.modules, ModuleOrder, k);
  }

  /** Concept items of one module, in the order `getModulesOverview` lists them. */
  lemma OverviewConceptsOrder(t: Tables, moduleId: int, k: int)
    ensures var sorted := StableSort.SortBy(ConceptsOf(t, moduleId), ConceptOrder);
      && (forall i :: 0 <= i < |sorted| ==> OverviewConcepts(t, moduleId)[i].id == sorted[i].id)
      && multiset(sorted) == multiset(ConceptsOf(t, moduleId))
      && StableSort.SortedBy(sorted, ConceptOrder)
      && StableSort.WithKey(sorted, ConceptOrder, k) == StableSort.WithKey(ConceptsOf(t, moduleId), ConceptOrder, k)
  {
    StableSort.SortByStable(ConceptsOf(t, moduleId), ConceptOrder, k);
  }

  /** Every overview concept item of a module comes from one of that module's concept entries. */
  lemma {:induction false} OverviewConceptFromEntry(t: Tables, moduleId: int, i: int)
    requires 0 <= i < |OverviewConcepts(t, moduleId)|
    ensures exists k :: (0 <= k < |t.concepts| && t.concepts[k].value.moduleId == moduleId &&
                         OverviewConcepts(t, moduleId)[i].id == t.concepts[k].id)
  {
    var own := ConceptsOf(t, moduleId);
    var sorted := StableSort.SortBy(own, ConceptOrder);
    StableSort.SortByMembers(own, ConceptOrder);
    assert OverviewConcepts(t, moduleId)[i].id == sorted[i].id;
    var j :| 0 <= j < |own| && own[j] == sorted[i];
    assert own[j] in t.concepts;
    var k :| 0 <= k < |t.concepts| && t.concepts[k] == own[j];
  }

  /** Every concept entry of a module has an item in that module's overview concepts. */
  lemma {:induction false} OverviewConceptOfEntry(t: Tables, moduleId: int, k: int)
    requires 0 <= k < |t.concepts| && t.concepts[k].value.moduleId == moduleId
    ensures exists i :: 0 <= i < |OverviewConcepts(t, moduleId)| && OverviewConcepts(t, moduleId)[i].id == t.concepts[k].id
  {
    var own := ConceptsOf(t, moduleId);
    var sorted := StableSort.SortBy(own, ConceptOrder);
    StableSort.SortByMembers(own, ConceptOrder);
    var e := t.concepts[k];
    assert e in own;
    var j :| 0 <= j < |own| && own[j] == e;
    assert own[j] in sorted;
    var i :| 0 <= i < |sorted| && sorted[i] == e;
    assert OverviewConcepts(t, moduleId)[i].id == e.id;
  }

  /** In a numbered concept table, each overview concept item names a concept entry of the module by its position. */
  lemma {:induction false} OverviewItemNumbered(t: Tables, moduleId: int, i: int)
    requires Numbered(t.concepts)
    requires 0 <= i < |OverviewConcepts(t, moduleId)|
    ensures var c := OverviewConcepts(t, moduleId)[i].id;
      1 <= c <= |t.concepts| && t.concepts[c - 1].value.moduleId == moduleId
  {
    OverviewConceptFromEntry(t, moduleId, i);
    var k :| 0 <= k < |t.concepts| && t.concepts[k].value.moduleId == moduleId &&
             OverviewConcepts(t, moduleId)[i].id == t.concepts[k].id;
    assert t.concepts[k].id == k + 1;
  }

  /** In a numbered concept table, concept entry `c` of the module has an overview item with id `c`. */
  lemma {:induction false} NumberedEntryListed(t: Tables, moduleId: int, c: int)
    requires Numbered(t.concepts)
    requires 1 <= c <= |t.concepts| && t.concepts[c - 1].value.moduleId == moduleId
    ensures exists i :: 0 <= i < |OverviewConcepts(t, moduleId)| && OverviewConcepts(t, moduleId)[i].id == c
  {
    OverviewConceptOfEntry(t, moduleId, c - 1);
    assert t.concepts[c - 1].id == c;
  }

  /**
   * In a numbered concept table, the overview of module `moduleId` lists
   * exactly the concepts numbered to it: concept id `c` appears iff concept
   * entry `c` belongs to that module.
   */
  lemma {:induction false} OverviewConceptsNumbered(t: Tables, moduleId: int, c: int)
    requires Numbered(t.concepts)
    ensures (exists i :: 0 <= i < |OverviewConcepts(t, moduleId)| && OverviewConcepts(t, moduleId)[i].id == c) <==>
            (1 <= c <= |t.concepts| && t.concepts[c - 1].value.moduleId == moduleId)
  {
    var items := OverviewConcepts(t, moduleId);
    if exists i :: 0 <= i < |items| && items[i].id == c {
      var i :| 0 <= i < |items| && items[i].id == c;
      OverviewItemNumbered(t, moduleId, i);
    }
    if 1 <= c <= |t.concepts| && t.concepts[c - 1].value.moduleId == moduleId {
      NumberedEntryListed(t, moduleId, c);
    }
  }

  /** The same on the initialised tables, whose concept table is numbered from 1. */
  lemma OverviewConceptsExact(content: seq<CourseModule>, moduleId: int, c: int)
    ensures var t := TablesOf(content);
      (exists i :: 0 <= i < |OverviewConcepts(t, moduleId)| && OverviewConcepts(t, moduleId)[i].id == c) <==>
      (1 <= c <= |t.concepts| && t.concepts[c - 1].value.moduleId == moduleId)
  {
    InitialTablesNumbered(content);
    OverviewConceptsNumbered(TablesOf(content), moduleId, c);
  }

  // ---------------------------------------------------------------------------
  // Quizzes

  datatype QuizQuestion = QuizQuestion(
    id: int,
    orderIndex: int,
    question: string,
    questionType: string,
    mediaUrl: string,
    options: seq<string>,
    correctOptionIndex: seq<int>,
    explanation: string)

  function QuestionOf(e: Entry<QuizData>): QuizQuestion
  {
    var q := e.value.quiz;
    QuizQuestion(e.id, q.orderIndex, q.question, q.questionType, q.mediaUrl, q.options, q.correctOptionIndex, q.explanation)
  }

  /** The quiz entries of a concept, in table order. */
  function QuizzesOf(t: Tables, conceptId: int): seq<Entry<QuizData>>
  {
    Filter(t.quizzes, QuizData.OfConcept(conceptId))
  }

  /** `getConceptQuiz`: the concept's quizzes sorted by order_index (an empty list for an unknown concept). */
  function ConceptQuiz(t: Tables, conceptId: int): (r: seq<QuizQuestion>)
    ensures |r| == |QuizzesOf(t, conceptId)|
    ensures forall i, j :: 0 <= i < j < |r| ==> r[i].orderIndex <= r[j].orderIndex
    ensures (forall k :: 0 <= k < |t.quizzes| ==> t.quizzes[k].value.conceptId != conceptId) ==> r == []
  {
    var sorted := StableSort.SortBy(QuizzesOf(t, conceptId), QuizOrder);
    seq(|sorted|, i requires 0 <= i < |sorted| => QuestionOf(sorted[i]))
  }

  /** Every question of a concept's quiz list is one of that concept's quizzes. */
  lemma {:induction false} QuestionFromEntry(t: Tables, conceptId: int, i: int)
    requires 0 <= i < |ConceptQuiz(t, conceptId)|
    ensures exists j :: (0 <= j < |t.quizzes| && t.quizzes[j].value.conceptId == conceptId &&
                         ConceptQuiz(t, conceptId)[i] == QuestionOf(t.quizzes[j]))
  {
    var own := QuizzesOf(t, conceptId);
    var sorted := StableSort.SortBy(own, QuizOrder);
    StableSort.SortByMembers(own, QuizOrder);
    var a :| 0 <= a < |own| && own[a] == sorted[i];
    assert own[a] in t.quizzes;
    var j :| 0 <= j < |t.quizzes| && t.quizzes[j] == own[a];
    assert ConceptQuiz(t, conceptId)[i] == QuestionOf(t.quizzes[j]);
  }

  /** Every quiz of a concept appears in its quiz list. */
  lemma {:induction false} QuestionOfEntry(t: Tables, conceptId: int, j: int)
    requires 0 <= j < |t.quizzes| && t.quizzes[j].value.conceptId == conceptId
    ensures exists i :: 0 <= i < |ConceptQuiz(t, conceptId)| && ConceptQuiz(t, conceptId)[i] == QuestionOf(t.quizzes[j])
  {
    var own := QuizzesOf(t, conceptId);
    var sorted := StableSort.SortBy(own, QuizOrder);
    StableSort.SortByMembers(own, QuizOrder);
    assert t.quizzes[j] in own;
    var a :| 0 <= a < |own| && own[a] == t.quizzes[j];
    assert own[a] in sorted;
    var i :| 0 <= i < |sorted| && sorted[i] == own[a];
    assert ConceptQuiz(t, conceptId)[i] == QuestionOf(t.quizzes[j]);
  }

  /** Quizzes of a concept with equal order_index keep their table order in the quiz list. */
  lemma ConceptQuizStable(t: Tables, conceptId: int, k: int)
    ensures var sorted := StableSort.SortBy(QuizzesOf(t, conceptId), QuizOrder);
      && (forall i :: 0 <= i < |sorted| ==> ConceptQuiz(t, conceptId)[i] == QuestionOf(sorted[i]))
      && StableSort.WithKey(sorted, QuizOrder, k) == StableSort.WithKey(QuizzesOf(t, conceptId), QuizOrder, k)
  {
    StableSort.SortByStable(QuizzesOf(t, conceptId), QuizOrder, k);
  }

  // ---------------------------------------------------------------------------
  // Scoring

  /** A JavaScript number as the scorer produces it: a ratio, or NaN from 0 / 0. */
  datatype Score = Ratio(value: real) | NotANumber

  /** `s[0]`, which is `undefined` for an empty array. */
  function First(s: seq<int>): Option<int>
  {
    if |s| == 0 then None else Some(s[0])
  }

  /** Single choice: 1 when the first selected index equals the first correct one, else 0. */
  function SingleChoiceScore(correct: seq<int>, user: seq<int>): (s: Score)
    ensures s == Ratio(1.0) || s == Ratio(0.0)
    ensures s == Ratio(1.0) <==> First(user) == First(correct)
  {
    if First(user) == First(correct) then Ratio(1.0) else Ratio(0.0)
  }

  /** Multiple choice: distinct correct indices that were selected, over the length of the correct list. */
  function MultipleChoiceScore(correct: seq<int>, user: seq<int>): (s: Score)
    ensures s.NotANumber? <==> |correct| == 0
    ensures s.Ratio? ==> s.value == (|ToSet(correct) * ToSet(user)| as real) / (|correct| as real)
  {
    if |correct| == 0 then NotANumber
    else Ratio((|ToSet(correct) * ToSet(user)| as real) / (|correct| as real))
  }

  function ScoreOf(quiz: QuizContent, user: seq<int>): Score
  {
    if quiz.questionType == "single_choice" then SingleChoiceScore(quiz.correctOptionIndex, user)
    else MultipleChoiceScore(quiz.correctOptionIndex, user)
  }

  datatype QuizSubmission = QuizSubmission(userAnswerIndices: seq<int>, correctOptionIndices: seq<int>, score: Score)

  /** `submitQuizAnswer`: fails for an unknown quiz, else echoes both index lists with the score. */
  function SubmitQuizAnswer(t: Tables, quizId: int, user: seq<int>): (r: Result<QuizSubmission, LookupError>)
    ensures r.Err? <==> Get(t.quizzes, quizId).None?
    ensures r.Err? ==> r.error == QuizNotFound(quizId)
    ensures r.Ok? ==>
      var quiz := Get(t.quizzes, quizId).value.quiz;
      && r.value.userAnswerIndices == user
      && r.value.correctOptionIndices == quiz.correctOptionIndex
      && r.value.score == ScoreOf(quiz, user)
  {
    match Get(t.quizzes, quizId)
    case None => Err(QuizNotFound(quizId))
    case Some(data) => Ok(QuizSubmission(user, data.quiz.correctOptionIndex, ScoreOf(data.quiz, user)))
  }

  /** Both lists empty compare `undefined === undefined`, which scores 1. */
  lemma SingleChoiceEmptyScoresOne()
    ensures SingleChoiceScore([], []) == Ratio(1.0)
  {
  }

  lemma RatioBounds(a: nat, b: nat)
    requires 0 < b && a <= b
    ensures 0.0 <= (a as real) / (b as real) <= 1.0
  {
  }

  /** A multiple-choice score lies in 0..1 whenever there is a correct index. */
  lemma MultipleChoiceRange(correct: seq<int>, user: seq<int>)
    requires |correct| > 0
    ensures 0.0 <= MultipleChoiceScore(correct, user).value <= 1.0
  {
    SubsetCard(ToSet(correct) * ToSet(user), ToSet(correct));
    ToSetCard(correct);
    RatioBounds(|ToSet(correct) * ToSet(user)|, |correct|);
  }

  /** Selecting more options never lowers a multiple-choice score; wrong extra selections leave it unchanged. */
  lemma MultipleChoiceMonotone(correct: seq<int>, user1: seq<int>, user2: seq<int>)
    requires |correct| > 0
    requires ToSet(user1) <= ToSet(user2)
    ensures MultipleChoiceScore(correct, user1).value <= MultipleChoiceScore(correct, user2).value
    ensures ToSet(correct) * ToSet(user2) == ToSet(correct) * ToSet(user1) ==>
      MultipleChoiceScore(correct, user1) == MultipleChoiceScore(correct, user2)
  {
    var a := |ToSet(correct) * ToSet(user1)|;
    var b := |ToSet(correct) * ToSet(user2)|;
    SubsetCard(ToSet(correct) * ToSet(user1), ToSet(correct) * ToSet(user2));
    DivMono(a, b, |correct|);
  }

  lemma DivMono(a: nat, b: nat, d: nat)
    requires a <= b && d > 0
    ensures (a as real) / (d as real) <= (b as real) / (d as real)
  {
  }

  /** A ratio of naturals is one exactly when they are equal. */
  lemma RatioOne(a: nat, b: nat)
    requires b > 0
    ensures (a as real) / (b as real) == 1.0 <==> a == b
  {
    if (a as real) / (b as real) == 1.0 {
      assert a as real == (a as real) / (b as real) * (b as real);
    }
  }

  /**
   * With no repeated correct index, a multiple-choice score is 1 exactly
   * when every correct index was selected.
   */
  lemma MultipleChoiceFull(correct: seq<int>, user: seq<int>)
    requires |correct| > 0 && NoDuplicates(correct)
    ensures MultipleChoiceScore(correct, user) == Ratio(1.0) <==> ToSet(correct) <= ToSet(user)
  {
    DistinctCard(correct);
    var hit := ToSet(correct) * ToSet(user);
    RatioOne(|hit|, |correct|);
    if |hit| == |correct| {
      SubsetSameSize(hit, ToSet(correct));
    }
    if ToSet(correct) <= ToSet(user) {
      assert hit == ToSet(correct);
    }
  }

  /**
   * The divisor counts repeated correct indices: correct [2, 2] answered
   * with [2] scores one half, and an empty correct list scores NaN.
   */
  lemma MultipleChoiceCountsRepeats()
    ensures MultipleChoiceScore([2, 2], [2]) == Ratio(0.5)
    ensures MultipleChoiceScore([], [1]) == NotANumber
  {
    assert ToSet([2, 2]) == {2};
    assert ToSet([2]) == {2};
  }

  // ---------------------------------------------------------------------------
  // Reflection submission and the concept/module helpers

  datatype ReflectionReceipt = ReflectionReceipt(message: string, reflectionId: int, userId: int, answer: string, timeSpent: int)

  /** The first reflection entry of a module, as `find` returns it. */
  function ReflectionFor(entries: seq<Entry<ReflectionData>>, moduleId: int): (r: Option<Entry<ReflectionData>>)
    ensures r.None? <==> forall k :: 0 <= k < |entries| ==> entries[k].value.moduleId != moduleId
    ensures r.Some? ==> exists k :: 0 <= k < |entries| && entries[k] == r.value && r.value.value.moduleId == moduleId &&
                          forall k' :: 0 <= k' < k ==> entries[k'].value.moduleId != moduleId
  {
    if |entries| == 0 then None
    else if entries[0].value.moduleId == moduleId then Some(entries[0])
    else
      var r := ReflectionFor(entries[1..], moduleId);
      assert forall k :: 1 <= k < |entries| ==> entries[k] == entries[1..][k - 1];
      if r.Some? then
        assert exists k :: 0 <= k < |entries| && entries[k] == r.value && r.value.value.moduleId == moduleId &&
                 forall k' :: 0 <= k' < k ==> entries[k'].value.moduleId != moduleId by {
          var k :| 0 <= k < |entries[1..]| && entries[1..][k] == r.value && r.value.value.moduleId == moduleId &&
                   forall k' :: 0 <= k' < k ==> entries[1..][k'].value.moduleId != moduleId;
          assert entries[k + 1] == entries[1..][k];
          assert forall k' :: 1 <= k' < k + 1 ==> entries[k'] == entries[1..][k' - 1];
        }
        r
      else r
  }

  /**
   * `submitModuleReflection`: fails when no reflection belongs to the module,
   * else a receipt echoing the answer and user with that reflection's id; an
   * absent time spent (or 0) is reported as 0.
   */
  function SubmitModuleReflection(t: Tables, moduleId: int, answer: string, userId: int, timeSpent: Option<int>)
    : (r: Result<ReflectionReceipt, LookupError>)
    ensures r.Err? <==> ReflectionFor(t.reflections, moduleId).None?
    ensures r.Err? ==> r.error == ReflectionNotFound(moduleId)
    ensures r.Ok? ==>
      && r.value.message == "Reflection saved successfully"
      && r.value.reflectionId == ReflectionFor(t.reflections, moduleId).value.id
      && r.value.userId == userId && r.value.answer == answer
      && r.value.timeSpent == (if timeSpent.Some? then timeSpent.value else 0)
  {
    match ReflectionFor(t.reflections, moduleId)
    case None => Err(ReflectionNotFound(moduleId))
    case Some(e) =>
      Ok(ReflectionReceipt("Reflection saved successfully", e.id, userId, answer,
                           if timeSpent.Some? && timeSpent.value != 0 then timeSpent.value else 0))
  }

  /** On the initialised tables the reflection of module `m` exists exactly for 1..|content| and has id `m`. */
  lemma ReflectionOnInitialTables(content: seq<CourseModule>, moduleId: int, answer: string, userId: int, timeSpent: Option<int>)
    ensures var r := SubmitModuleReflection(TablesOf(content), moduleId, answer, userId, timeSpent);
      && (r.Ok? <==> 1 <= moduleId <= |content|)
      && (r.Ok? ==> r.value.reflectionId == moduleId)
  {
    ModulesAndReflections(content);
    var rs := TablesOf(content).reflections;
    if 1 <= moduleId <= |content| {
      assert rs[moduleId - 1].value.moduleId == moduleId;
      var e := ReflectionFor(rs, moduleId).value;
      var k :| 0 <= k < |rs| && rs[k] == e && e.value.moduleId == moduleId &&
               forall k' :: 0 <= k' < k ==> rs[k'].value.moduleId != moduleId;
      assert rs[k].value.moduleId == k + 1;
    }
  }

  /** `getModuleIdForConcept`: the module number of a known concept, none for an unknown one. */
  function ModuleIdForConcept(t: Tables, conceptId: int): (r: Option<int>)
    ensures r.None? <==> Get(t.concepts, conceptId).None?
    ensures r.Some? ==> r.value == Get(t.concepts, conceptId).value.moduleId
  {
    match Get(t.concepts, conceptId)
    case None => None
    case Some(data) => Some(data.moduleId)
  }

  /** `getConceptIdsForModule`: the ids of the module's concept entries, in table order. */
  function ConceptIdsForModule(t: Tables, moduleId: int): (r: seq<int>)
    ensures |r| == |ConceptsOf(t, moduleId)|
    ensures forall i :: 0 <= i < |r| ==> r[i] == ConceptsOf(t, moduleId)[i].id
  {
    var own := ConceptsOf(t, moduleId);
    seq(|own|, i requires 0 <= i < |own| => own[i].id)
  }

  /** With unique ids, looking up the id of an entry finds that entry. */
  lemma GetUnique<V>(entries: seq<Entry<V>>, k: int)
    requires forall k1, k2 :: 0 <= k1 < k2 < |entries| ==> entries[k1].id != entries[k2].id
    requires 0 <= k < |entries|
    ensures Get(entries, entries[k].id) == Some(entries[k].value)
  {
    var k0 :| 0 <= k0 < |entries| && entries[k0].id == entries[k].id &&
              entries[k0].value == Get(entries, entries[k].id).value &&
              forall k' :: 0 <= k' < k0 ==> entries[k'].id != entries[k].id;
    assert k0 == k;
  }

  /** Each concept listed for a module looks up to that module. */
  lemma ListedConceptModule(t: Tables, moduleId: int, i: int)
    requires forall k1, k2 :: 0 <= k1 < k2 < |t.concepts| ==> t.concepts[k1].id != t.concepts[k2].id
    requires 0 <= i < |ConceptsOf(t, moduleId)|
    ensures ModuleIdForConcept(t, ConceptsOf(t, moduleId)[i].id) == Some(moduleId)
  {
    var e := ConceptsOf(t, moduleId)[i];
    assert e in t.concepts && ConceptData.InModule(moduleId)(e.value);
    var k :| 0 <= k < |t.concepts| && t.concepts[k] == e;
    GetUnique(t.concepts, k);
  }

  /** A concept that looks up to a module is listed for it. */
  lemma ModuleConceptListed(t: Tables, moduleId: int, conceptId: int)
    requires ModuleIdForConcept(t, conceptId) == Some(moduleId)
    ensures conceptId in ConceptIdsForModule(t, moduleId)
  {
    var own := ConceptsOf(t, moduleId);
    var k0 :| 0 <= k0 < |t.concepts| && t.concepts[k0].id == conceptId &&
              t.concepts[k0].value == Get(t.concepts, conceptId).value &&
              forall k' :: 0 <= k' < k0 ==> t.concepts[k'].id != conceptId;
    assert ConceptData.InModule(moduleId)(t.concepts[k0].value);
    assert t.concepts[k0] in own;
    var i :| 0 <= i < |own| && own[i] == t.concepts[k0];
    assert ConceptIdsForModule(t, moduleId)[i] == conceptId;
  }

  /**
   * With concept ids unique, a concept is listed for a module exactly when
   * the module lookup of that concept names the module.
   */
  lemma ConceptModuleRoundTrip(t: Tables, moduleId: int, conceptId: int)
    requires forall k1, k2 :: 0 <= k1 < k2 < |t.concepts| ==> t.concepts[k1].id != t.concepts[k2].id
    ensures conceptId in ConceptIdsForModule(t, moduleId) <==> ModuleIdForConcept(t, conceptId) == Some(moduleId)
  {
    var ids := ConceptIdsForModule(t, moduleId);
    if conceptId in ids {
      var i :| 0 <= i < |ids| && ids[i] == conceptId;
      ListedConceptModule(t, moduleId, i);
    }
    if ModuleIdForConcept(t, conceptId) == Some(moduleId) {
      ModuleConceptListed(t, moduleId, conceptId);
    }
  }

  /** On the initialised tables a module's concept ids are strictly increasing. */
  lemma ConceptIdsIncreasing(content: seq<CourseModule>, moduleId: int)
    ensures var ids := ConceptIdsForModule(TablesOf(content), moduleId);
      forall i, j :: 0 <= i < j < |ids| ==> ids[i] < ids[j]
  {
    InitialTablesNumbered(content);
    var t := TablesOf(content);
    assert forall k1, k2 :: 0 <= k1 < k2 < |t.concepts| ==> t.concepts[k1].id < t.concepts[k2].id;
    FilterIncreasing(t.concepts, ConceptData.InModule(moduleId));
    var own := ConceptsOf(t, moduleId);
    assert own == Filter(t.concepts, ConceptData.InModule(moduleId));
    var ids := ConceptIdsForModule(t, moduleId);
    forall i, j | 0 <= i < j < |ids| ensures ids[i] < ids[j] {
      assert ids[i] == own[i].id && ids[j] == own[j].id;
    }
  }
}
