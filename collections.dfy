/** Facts about integer sequences and sets shared by several parts of the model. */
module Collections {

  /** No value occurs twice. */
  predicate NoDuplicates(s: seq<int>)
  {
    forall i, j :: 0 <= i < j < |s| ==> s[i] != s[j]
  }

  /** The values of a sequence, as JavaScript's `new Set(s)` holds them. */
  function ToSet(s: seq<int>): set<int>
  {
    set x | x in s
  }

  /** A sequence without duplicates has as many distinct values as elements. */
  lemma {:induction false} DistinctCard(s: seq<int>)
    requires NoDuplicates(s)
    ensures |ToSet(s)| == |s|
  {
    if |s| > 0 {
      var p := s[..|s| - 1];
      DistinctCard(p);
      assert ToSet(s) == ToSet(p) + {s[|s| - 1]};
      assert s[|s| - 1] !in ToSet(p);
    } else {
      assert ToSet(s) == {};
    }
  }

  /** A sequence never has more distinct values than elements. */
  lemma {:induction false} ToSetCard(s: seq<int>)
    ensures |ToSet(s)| <= |s|
  {
    if |s| > 0 {
      var p := s[..|s| - 1];
      ToSetCard(p);
      assert ToSet(s) == ToSet(p) + {s[|s| - 1]};
    } else {
      assert ToSet(s) == {};
    }
  }

  lemma SubsetCard(a: set<int>, b: set<int>)
    requires a <= b
    ensures |a| <= |b|
  {
    assert b == a + (b - a);
  }

  /** A subset as large as the whole set is the whole set. */
  lemma SubsetSameSize(a: set<int>, b: set<int>)
    requires a <= b && |a| == |b|
    ensures a == b
  {
    assert b == a + (b - a);
    assert |b - a| == 0;
  }
}
