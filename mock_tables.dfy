/**
 * The content tables of the mock backend (lib/api/mockData.ts): the course
 * content is walked once at load time and every module, reflection, concept
 * and quiz gets a number from its own counter, starting at 1, in content
 * order. Each JavaScript `Map` is keyed by these fresh ids and keeps insertion
 * order, so it is modelled as a sequence of entries in that order.
 */
module MockTables {
  import opened Wrappers

  datatype ThemeContent = ThemeContent(title: string, context: string, mediaUrl: string, mediaType: string, question: string)

  datatype TutorialContent = TutorialContent(goodStory: string, goodMediaUrl: string, badStory: string, badMediaUrl: string)

  datatype SummaryContent = SummaryContent(summaryContent: string, nextChapterIntro: Option<string>)

  datatype QuizContent = QuizContent(
    orderIndex: int,
    question: string,
    questionType: string,
    mediaUrl: string,
    options: seq<string>,
    explanation: string,
    correctOptionIndex: seq<int>)

  datatype ConceptContent = ConceptContent(
    orderIndex: int,
    title: string,
    definition: string,
    whyItWorks: string,
    tutorial: TutorialContent,
    summary: SummaryContent,
    quizzes: seq<QuizContent>)

  datatype ReflectionContent = ReflectionContent(moduleSummary: string, moduleSummaryMediaUrl: string, learningAdvice: string)

  /** One element of the course content file. */
  datatype CourseModule = CourseModule(
    title: string,
    description: string,
    orderIndex: int,
    theme: ThemeContent,
    concepts: seq<ConceptContent>,
    reflection: ReflectionContent)

  /** A map entry: the assigned id and what it maps to. */
  datatype Entry<V> = Entry(id: int, value: V)

  datatype ConceptData = ConceptData(courseModule: CourseModule, concept: ConceptContent, moduleId: int)
  {
    /** The filter `data.moduleId === moduleId`. */
    static function InModule(moduleId: int): ConceptData -> bool
    {
      (d: ConceptData) => d.moduleId == moduleId
    }
  }

  datatype QuizData = QuizData(quiz: QuizContent, conceptId: int)
  {
    /** The filter `data.conceptId === conceptId`. */
    static function OfConcept(conceptId: int): QuizData -> bool
    {
      (d: QuizData) => d.conceptId == conceptId
    }
  }

  datatype ReflectionData = ReflectionData(reflection: ReflectionContent, moduleId: int)

  /** `moduleMap`, `conceptMap`, `quizMap` and `reflectionMap`, each in insertion order. */
  datatype Tables = Tables(
    modules: seq<Entry<CourseModule>>,
    concepts: seq<Entry<ConceptData>>,
    quizzes: seq<Entry<QuizData>>,
    reflections: seq<Entry<ReflectionData>>)

  // ---------------------------------------------------------------------------
  // What the initialisation builds, stated without counters

  function ModuleEntries(content: seq<CourseModule>): seq<Entry<CourseModule>>
  {
    seq(|content|, i requires 0 <= i < |content| => Entry(i + 1, content[i]))
  }

  function ReflectionEntries(content: seq<CourseModule>): seq<Entry<ReflectionData>>
  {
    seq(|content|, i requires 0 <= i < |content| => Entry(i + 1, ReflectionData(content[i].reflection, i + 1)))
  }

  /** The concept entries of one module, numbered after the `before` entries already made. */
  function ConceptBlock(m: CourseModule, moduleId: int, before: nat): seq<Entry<ConceptData>>
  {
    seq(|m.concepts|, j requires 0 <= j < |m.concepts| => Entry(before + j + 1, ConceptData(m, m.concepts[j], moduleId)))
  }

  /** All concept entries, module after module. */
  function ConceptEntries(content: seq<CourseModule>): seq<Entry<ConceptData>>
  {
    if |content| == 0 then []
    else
      var p := ConceptEntries(content[..|content| - 1]);
      p + ConceptBlock(content[|content| - 1], |content|, |p|)
  }

  /** The quiz entries of one concept entry, numbered after the `before` entries already made. */
  function QuizBlock(c: Entry<ConceptData>, before: nat): seq<Entry<QuizData>>
  {
    var qs := c.value.concept.quizzes;
    seq(|qs|, q requires 0 <= q < |qs| => Entry(before + q + 1, QuizData(qs[q], c.id)))
  }

  /** All quiz entries, concept entry after concept entry. */
  function QuizEntries(cs: seq<Entry<ConceptData>>): seq<Entry<QuizData>>
  {
    if |cs| == 0 then []
    else
      var p := QuizEntries(cs[..|cs| - 1]);
      p + QuizBlock(cs[|cs| - 1], |p|)
  }

  function TablesOf(content: seq<CourseModule>): Tables
  {
    var concepts := ConceptEntries(content);
    Tables(ModuleEntries(content), concepts, QuizEntries(concepts), ReflectionEntries(content))
  }

  /**
   * The load-time initialisation: nested walks over modules, their concepts
   * and their quizzes, each id taken from its counter before the counter is
   * incremented.
   */
  method BuildTables(content: seq<CourseModule>) returns (t: Tables)
    ensures t == TablesOf(content)
  {
    var moduleIdCounter := 1;
    var conceptIdCounter := 1;
    var quizIdCounter := 1;
    var reflectionIdCounter := 1;
    var modules: seq<Entry<CourseModule>> := [];
    var concepts: seq<Entry<ConceptData>> := [];
    var quizzes: seq<Entry<QuizData>> := [];
    var reflections: seq<Entry<ReflectionData>> := [];
    var i := 0;
    while i < |content|
      invariant 0 <= i <= |content|
      invariant moduleIdCounter == i + 1 && reflectionIdCounter == i + 1
      invariant modules == ModuleEntries(content[..i]) && reflections == ReflectionEntries(content[..i])
      invariant concepts == ConceptEntries(content[..i]) && conceptIdCounter == |concepts| + 1
      invariant quizzes == QuizEntries(concepts) && quizIdCounter == |quizzes| + 1
    {
      var m := content[i];
      var moduleId := moduleIdCounter;
      moduleIdCounter := moduleIdCounter + 1;
      modules := modules + [Entry(moduleId, m)];
      var reflectionId := reflectionIdCounter;
      reflectionIdCounter := reflectionIdCounter + 1;
      reflections := reflections + [Entry(reflectionId, ReflectionData(m.reflection, moduleId))];

      ghost var conceptsBefore := concepts;
      var j := 0;
      while j < |m.concepts|
        invariant 0 <= j <= |m.concepts|
        invariant concepts == conceptsBefore + ConceptBlock(m, moduleId, |conceptsBefore|)[..j]
        invariant conceptIdCounter == |concepts| + 1
        invariant quizzes == QuizEntries(concepts) && quizIdCounter == |quizzes| + 1
      {
        var concept := m.concepts[j];
        var conceptId := conceptIdCounter;
        conceptIdCounter := conceptIdCounter + 1;
        var entry := Entry(conceptId, ConceptData(m, concept, moduleId));
        assert ConceptBlock(m, moduleId, |conceptsBefore|)[..j + 1] == ConceptBlock(m, moduleId, |conceptsBefore|)[..j] + [entry];
        concepts := concepts + [entry];

        ghost var quizzesBefore := quizzes;
        var q := 0;
        while q < |concept.quizzes|
          invariant 0 <= q <= |concept.quizzes|
          invariant quizzes == quizzesBefore + QuizBlock(entry, |quizzesBefore|)[..q]
          invariant quizIdCounter == |quizzes| + 1
        {
          var quizId := quizIdCounter;
          quizIdCounter := quizIdCounter + 1;
          var quizEntry := Entry(quizId, QuizData(concept.quizzes[q], conceptId));
          assert QuizBlock(entry, |quizzesBefore|)[..q + 1] == QuizBlock(entry, |quizzesBefore|)[..q] + [quizEntry];
          quizzes := quizzes + [quizEntry];
          q := q + 1;
        }
        assert QuizBlock(entry, |quizzesBefore|)[..q] == QuizBlock(entry, |quizzesBefore|);
        assert concepts[..|concepts| - 1] == conceptsBefore + ConceptBlock(m, moduleId, |conceptsBefore|)[..j];
        j := j + 1;
      }
      assert ConceptBlock(m, moduleId, |conceptsBefore|)[..j] == ConceptBlock(m, moduleId, |conceptsBefore|);
      assert content[..i + 1][..i] == content[..i];
      assert ModuleEntries(content[..i + 1]) == ModuleEntries(content[..i]) + [Entry(moduleId, m)];
      assert ReflectionEntries(content[..i + 1]) == ReflectionEntries(content[..i]) + [Entry(reflectionId, ReflectionData(m.reflection, moduleId))];
      i := i + 1;
    }
    assert content[..i] == content;
    t := Tables(modules, concepts, quizzes, reflections);
  }

  // ---------------------------------------------------------------------------
  // What the numbering guarantees

  /** The entry at position k has id k + 1: ids are unique and consecutive from 1. */
  predicate Numbered<V>(s: seq<Entry<V>>)
  {
    forall k :: 0 <= k < |s| ==> s[k].id == k + 1
  }

  /**
   * Concept entries are numbered consecutively across modules; each refers
   * to the module (by its number) that lists it, and module numbers never
   * decrease along the table, so concepts appear in content order.
   */
  lemma {:induction false} ConceptEntriesFacts(content: seq<CourseModule>)
    ensures var cs := ConceptEntries(content);
      && Numbered(cs)
      && (forall k :: 0 <= k < |cs| ==>
            && 1 <= cs[k].value.moduleId <= |content|
            && cs[k].value.courseModule == content[cs[k].value.moduleId - 1]
            && cs[k].value.concept in content[cs[k].value.moduleId - 1].concepts)
      && (forall k1, k2 :: 0 <= k1 < k2 < |cs| ==> cs[k1].value.moduleId <= cs[k2].value.moduleId)
  {
    if |content| > 0 {
      var n := |content|;
      var prefix := content[..n - 1];
      ConceptEntriesFacts(prefix);
      var p := ConceptEntries(prefix);
      var b := ConceptBlock(content[n - 1], n, |p|);
      var cs := p + b;
      assert cs == ConceptEntries(content);
      forall k | 0 <= k < |cs|
        ensures cs[k].id == k + 1
        ensures 1 <= cs[k].value.moduleId <= n
        ensures cs[k].value.courseModule == content[cs[k].value.moduleId - 1]
        ensures cs[k].value.concept in content[cs[k].value.moduleId - 1].concepts
      {
        if k < |p| {
          assert cs[k] == p[k];
          assert content[p[k].value.moduleId - 1] == prefix[p[k].value.moduleId - 1];
        } else {
          assert cs[k] == b[k - |p|];
        }
      }
      forall k1, k2 | 0 <= k1 < k2 < |cs| ensures cs[k1].value.moduleId <= cs[k2].value.moduleId {
        if k2 < |p| {
          assert cs[k1] == p[k1] && cs[k2] == p[k2];
        } else if k1 < |p| {
          assert cs[k1] == p[k1] && cs[k2] == b[k2 - |p|];
        } else {
          assert cs[k1] == b[k1 - |p|] && cs[k2] == b[k2 - |p|];
        }
      }
    }
  }

  /**
   * Quiz entries are numbered consecutively across concepts; each refers to
   * a concept entry that lists it, and for consecutively numbered concept
   * entries that reference is the concept's position plus one and never
   * decreases along the table.
   */
  lemma {:induction false} QuizEntriesFacts(cs: seq<Entry<ConceptData>>)
    ensures var qs := QuizEntries(cs);
      && Numbered(qs)
      && (forall k :: 0 <= k < |qs| ==>
            exists j :: 0 <= j < |cs| && cs[j].id == qs[k].value.conceptId && qs[k].value.quiz in cs[j].value.concept.quizzes)
      && (Numbered(cs) ==>
            && (forall k :: 0 <= k < |qs| ==> 1 <= qs[k].value.conceptId <= |cs|)
            && (forall k1, k2 :: 0 <= k1 < k2 < |qs| ==> qs[k1].value.conceptId <= qs[k2].value.conceptId))
  {
    if |cs| > 0 {
      var n := |cs|;
      var prefix := cs[..n - 1];
      QuizEntriesFacts(prefix);
      var p := QuizEntries(prefix);
      var b := QuizBlock(cs[n - 1], |p|);
      var qs := p + b;
      assert qs == QuizEntries(cs);
      forall k | 0 <= k < |qs|
        ensures qs[k].id == k + 1
        ensures exists j :: 0 <= j < |cs| && cs[j].id == qs[k].value.conceptId && qs[k].value.quiz in cs[j].value.concept.quizzes
      {
        if k < |p| {
          assert qs[k] == p[k];
          var j :| 0 <= j < |prefix| && prefix[j].id == p[k].value.conceptId && p[k].value.quiz in prefix[j].value.concept.quizzes;
          assert cs[j] == prefix[j];
        } else {
          assert qs[k] == b[k - |p|];
          assert cs[n - 1].id == qs[k].value.conceptId;
        }
      }
      if Numbered(cs) {
        assert Numbered(prefix) by {
          forall k | 0 <= k < |prefix| ensures prefix[k].id == k + 1 {
            assert prefix[k] == cs[k];
          }
        }
        forall k | 0 <= k < |qs| ensures 1 <= qs[k].value.conceptId <= n {
          if k < |p| { assert qs[k] == p[k]; } else { assert qs[k] == b[k - |p|]; }
        }
        forall k1, k2 | 0 <= k1 < k2 < |qs| ensures qs[k1].value.conceptId <= qs[k2].value.conceptId {
          if k2 < |p| {
            assert qs[k1] == p[k1] && qs[k2] == p[k2];
          } else if k1 < |p| {
            assert qs[k1] == p[k1] && qs[k2] == b[k2 - |p|];
          } else {
            assert qs[k1] == b[k1 - |p|] && qs[k2] == b[k2 - |p|];
          }
        }
      }
    }
  }

  /** After initialisation every table is numbered from 1 without gaps. */
  lemma InitialTablesNumbered(content: seq<CourseModule>)
    ensures var t := TablesOf(content);
      Numbered(t.modules) && Numbered(t.concepts) && Numbered(t.quizzes) && Numbered(t.reflections)
  {
    ConceptEntriesFacts(content);
    QuizEntriesFacts(ConceptEntries(content));
  }

  /** In a numbered concept table, each quiz entry's concept id is the position (plus one) of a concept listing it. */
  lemma QuizzesPointToConcepts(cs: seq<Entry<ConceptData>>)
    requires Numbered(cs)
    ensures var qs := QuizEntries(cs);
      forall k :: 0 <= k < |qs| ==>
        && 1 <= qs[k].value.conceptId <= |cs|
        && qs[k].value.quiz in cs[qs[k].value.conceptId - 1].value.concept.quizzes
  {
    QuizEntriesFacts(cs);
    var qs := QuizEntries(cs);
    forall k | 0 <= k < |qs|
      ensures qs[k].value.quiz in cs[qs[k].value.conceptId - 1].value.concept.quizzes
    {
      var j :| 0 <= j < |cs| && cs[j].id == qs[k].value.conceptId && qs[k].value.quiz in cs[j].value.concept.quizzes;
    }
  }

  /** Module k and reflection k both come from content element k. */
  lemma ModulesAndReflections(content: seq<CourseModule>)
    ensures var t := TablesOf(content);
      && Numbered(t.modules) && Numbered(t.reflections)
      && |t.modules| == |content| && |t.reflections| == |content|
      && (forall k :: 0 <= k < |content| ==> t.modules[k].value == content[k])
      && (forall k :: 0 <= k < |content| ==>
            t.reflections[k].value == ReflectionData(content[k].reflection, t.modules[k].id))
  {
  }
}
