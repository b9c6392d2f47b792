/** Sequences without repetitions, and the sizes of sets. */
module Collections {

  predicate Distinct<T(==)>(s: seq<T>) {
    forall i, j :: 0 <= i < j < |s| ==> s[i] != s[j]
  }

  function Elements<T>(s: seq<T>): set<T> {
    set x | x in s
  }

  lemma DistinctSnoc<T>(init: seq<T>, last: T)
    ensures Distinct(init + [last]) <==> Distinct(init) && last !in init
  {
    var s := init + [last];
    assert forall i :: 0 <= i < |init| ==> s[i] == init[i];
    if last in init {
      var i :| 0 <= i < |init| && init[i] == last;
      assert s[i] == s[|init|];
    } else if !Distinct(init) {
      var i, j :| 0 <= i < j < |init| && init[i] == init[j];
      assert s[i] == s[j];
    }
  }

  /** Counting the elements finds exactly the repetitions. */
  lemma {:induction false} DistinctByCount<T>(s: seq<T>)
    ensures |Elements(s)| <= |s|
    ensures |Elements(s)| == |s| <==> Distinct(s)
  {
    if s != [] {
      var init, last := s[..|s| - 1], s[|s| - 1];
      DistinctByCount(init);
      DistinctSnoc(init, last);
      assert init + [last] == s;
      assert Elements(s) == Elements(init) + {last};
    }
  }

  lemma {:induction false} DistinctMultiset<T>(s: seq<T>)
    requires Distinct(s)
    ensures multiset(s) == multiset(Elements(s)) && |Elements(s)| == |s|
  {
    DistinctByCount(s);
    if s != [] {
      var init, last := s[..|s| - 1], s[|s| - 1];
      DistinctSnoc(init, last);
      assert init + [last] == s;
      DistinctMultiset(init);
      assert Elements(s) == Elements(init) + {last} && last !in Elements(init);
    }
  }

  lemma DistinctFit<T>(s: seq<T>, big: set<T>)
    requires Distinct(s) && forall x :: x in s ==> x in big
    ensures |s| <= |big|
  {
    DistinctByCount(s);
    SmallerSet(Elements(s), big);
  }

  lemma SmallerSet<T>(a: set<T>, b: set<T>)
    requires a <= b
    ensures |a| <= |b|
  {
    assert b == a + (b - a);
  }

  lemma SubsetOfSameSize<T>(a: set<T>, b: set<T>)
    requires a <= b && |a| == |b|
    ensures a == b
  {
    assert b == a + (b - a);
    assert |b| == |a| + |b - a|;
  }
}
