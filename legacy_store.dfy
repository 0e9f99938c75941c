/**
 * The legacy progress store (src/store/useProgressStore.ts): two duplicate-free
 * lists of completed concept ids and theme (module) ids, and a streak counter.
 */
module LegacyStore {
  import opened Collections

  /**
   * The list update of `completeConcept`/`completeTheme`: the same list when
   * the id is already present, otherwise the list with the id appended.
   */
  function AddOnce(s: seq<int>, x: int): (r: seq<int>)
    ensures x in r
    ensures forall y :: y in r <==> y in s || y == x
    ensures |s| <= |r| <= |s| + 1 && r[..|s|] == s
    ensures x in s <==> r == s
    ensures NoDuplicates(s) ==> NoDuplicates(r)
  {
    if x in s then s else s + [x]
  }

  /** Adding an id twice is adding it once. */
  lemma AddOnceIdempotent(s: seq<int>, x: int)
    ensures AddOnce(AddOnce(s, x), x) == AddOnce(s, x)
  {
  }

  /** A new id goes last; every earlier id keeps its position. */
  lemma {:induction false} AddOnceAppendsLast(s: seq<int>, x: int)
    requires x !in s
    ensures var r := AddOnce(s, x);
      |r| == |s| + 1 && r[|s|] == x && forall i :: 0 <= i < |s| ==> r[i] == s[i]
  {
  }

  class Store {
    var completedConcepts: seq<int>
    var completedThemes: seq<int>
    var streak: int

    ghost predicate Valid()
      reads this
    {
      NoDuplicates(completedConcepts) && NoDuplicates(completedThemes)
    }

    /** The initial state: nothing completed, streak 7. */
    constructor ()
      ensures Valid()
      ensures completedConcepts == [] && completedThemes == [] && streak == 7
    {
      completedConcepts := [];
      completedThemes := [];
      streak := 7;
    }

    method CompleteConcept(conceptId: int)
      requires Valid()
      modifies this
      ensures Valid()
      ensures completedConcepts == AddOnce(old(completedConcepts), conceptId)
      ensures completedThemes == old(completedThemes) && streak == old(streak)
    {
      if conceptId !in completedConcepts {
        completedConcepts := completedConcepts + [conceptId];
      }
    }

    method CompleteTheme(moduleId: int)
      requires Valid()
      modifies this
      ensures Valid()
      ensures completedThemes == AddOnce(old(completedThemes), moduleId)
      ensures completedConcepts == old(completedConcepts) && streak == old(streak)
    {
      if moduleId !in completedThemes {
        completedThemes := completedThemes + [moduleId];
      }
    }

    method SetStreak(value: int)
      requires Valid()
      modifies this
      ensures Valid()
      ensures streak == value
      ensures completedConcepts == old(completedConcepts) && completedThemes == old(completedThemes)
    {
      streak := value;
    }

    /** `completedConcepts.includes(conceptId)`. */
    function IsConceptCompleted(conceptId: int): (b: bool)
      reads this
      ensures b <==> exists i :: 0 <= i < |completedConcepts| && completedConcepts[i] == conceptId
    {
      conceptId in completedConcepts
    }

    /** `completedThemes.includes(moduleId)`. */
    function IsThemeCompleted(moduleId: int): (b: bool)
      reads this
      ensures b <==> exists i :: 0 <= i < |completedThemes| && completedThemes[i] == moduleId
    {
      moduleId in completedThemes
    }
  }
}
