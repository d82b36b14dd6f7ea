/** Sequences without repetition and the sets of their elements. */
module Sequences {

  predicate Distinct<T(==)>(s: seq<T>) {
    forall i, j :: 0 <= i < j < |s| ==> s[i] != s[j]
  }

  function Elems<T>(s: seq<T>): set<T> {
    set x | x in s
  }

  lemma ElemsIn<T>(s: seq<T>, x: T)
    ensures x in Elems(s) <==> x in s
  {
  }

  lemma ElemsPush<T>(s: seq<T>, x: T)
    ensures Elems(s + [x]) == Elems(s) + {x}
  {
  }

  lemma DistinctPop<T>(s: seq<T>, t: seq<T>, x: T)
    requires Distinct(s) && s == t + [x]
    ensures Distinct(t) && x !in Elems(t)
  {
    forall i | 0 <= i < |t|
      ensures t[i] != x
    {
      assert s[i] != s[|t|];
    }
    forall i, j | 0 <= i < j < |t|
      ensures t[i] != t[j]
    {
      assert s[i] != s[j];
    }
  }

  lemma {:induction false} DistinctCount<T>(s: seq<T>)
    requires Distinct(s)
    ensures |Elems(s)| == |s|
  {
    if s == [] {
      assert Elems(s) == {};
    } else {
      hide Elems, Distinct;
      var t, x := s[..|s| - 1], s[|s| - 1];
      assert s == t + [x];
      DistinctPop(s, t, x);
      DistinctCount(t);
      ElemsPush(t, x);
    }
  }

  lemma {:induction false} SubsetCard<T>(a: set<T>, b: set<T>)
    requires a <= b
    ensures |a| <= |b|
    decreases a
  {
    if a != {} {
      var x :| x in a;
      SubsetCard(a - {x}, b - {x});
    }
  }
}
