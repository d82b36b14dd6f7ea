/**
 Reservoir sampling is fair: over all sequences of draws, each of m candidates is kept in the
 same fraction n/m of them.
 */
module SampleCounting {
  import opened Sampling
  import opened Sequences

  type Draws = seq<nat>

  function Upto(k: nat): (s: set<nat>)
    ensures forall x: nat :: x in s <==> x < k
    ensures |s| == k
  {
    if k == 0 then {} else Upto(k - 1) + {k - 1}
  }

  /** The candidates, numbered in the order they are met. */
  function Range(m: nat): (r: seq<nat>)
    ensures |r| == m && forall i :: 0 <= i < m ==> r[i] == i
  {
    seq(m, i => i)
  }

  /** The sample of n of the first m candidates. */
  function Kept(n: nat, m: nat, d: Draws): (r: seq<nat>)
    requires m <= n + |d|
    ensures |r| == if m < n then m else n
  {
    Reservoir<nat>(n, Range(m), d)
  }

  /** Each sequence of S followed by each of its choices. */
  ghost function Extend(S: set<Draws>, choices: Draws -> set<nat>): set<Draws> {
    set d, x | d in S && x in choices(d) :: d + [x]
  }

  ghost function AnyBelow(k: nat): Draws -> set<nat> {
    _ => Upto(k)
  }

  /** All sequences of draws that choose among m candidates for n places. */
  ghost function DrawSpace(n: nat, m: nat): set<Draws>
    requires n <= m
    decreases m
  {
    if m == n then {[]} else Extend(DrawSpace(n, m - 1), AnyBelow(m))
  }

  /** The sequences of draws after which candidate j is in the sample. */
  ghost function Keeping(n: nat, m: nat, j: nat): set<Draws>
    requires n <= m
  {
    set d | d in DrawSpace(n, m) && |d| == m - n && j in Kept(n, m, d)
  }

  // ----- counting -----

  lemma {:induction false} TailsCard(d: Draws, X: set<nat>)
    ensures |set x | x in X :: d + [x]| == |X|
    decreases X
  {
    var T := set x | x in X :: d + [x];
    if X == {} {
      assert T == {};
    } else {
      var x0 :| x0 in X;
      var Y := X - {x0};
      var U := set x | x in Y :: d + [x];
      TailsCard(d, Y);
      forall x | x in Y
        ensures d + [x] != d + [x0]
      {
        assert (d + [x])[|d|] == x && (d + [x0])[|d|] == x0;
      }
      assert T == U + {d + [x0]} by {
        assert X == Y + {x0};
      }
    }
  }

  lemma ExtendElim(S: set<Draws>, choices: Draws -> set<nat>, e: Draws) returns (d: Draws, x: nat)
    requires e in Extend(S, choices)
    ensures d in S && x in choices(d) && e == d + [x]
  {
    d, x :| d in S && x in choices(d) && e == d + [x];
  }

  lemma ExtendIntro(S: set<Draws>, choices: Draws -> set<nat>, d: Draws, x: nat)
    requires d in S && x in choices(d)
    ensures d + [x] in Extend(S, choices)
  {
  }

  lemma {:induction false} ExtendCard(S: set<Draws>, choices: Draws -> set<nat>, c: nat)
    requires forall d :: d in S ==> |choices(d)| == c
    ensures |Extend(S, choices)| == |S| * c
    decreases S
  {
    if S == {} {
      assert Extend(S, choices) == {};
    } else {
      hide Extend;
      var d0 :| d0 in S;
      var R := S - {d0};
      ExtendCard(R, choices, c);
      ExtendOne(S, choices, d0);
      OneMoreTimes(|R|, c);
      assert |S| == |R| + 1;
    }
  }

  lemma ExtendOne(S: set<Draws>, choices: Draws -> set<nat>, d0: Draws)
    requires d0 in S
    ensures |Extend(S, choices)| == |Extend(S - {d0}, choices)| + |choices(d0)|
  {
    hide Extend;
    var tails := set x | x in choices(d0) :: d0 + [x];
    TailsCard(d0, choices(d0));
    ExtendSplit(S, choices, d0, tails);
  }

  lemma OneMoreTimes(n: nat, c: nat)
    ensures (n + 1) * c == n * c + c
  {
  }

  lemma SnocInjective(d: Draws, x: nat, e: Draws, y: nat)
    ensures d + [x] == e + [y] ==> d == e && x == y
  {
    if d + [x] == e + [y] {
      assert |d| == |e|;
      assert d == (d + [x])[..|d|] && e == (e + [y])[..|e|];
      assert (d + [x])[|d|] == x && (e + [y])[|e|] == y;
    }
  }

  lemma ExtendSplit(S: set<Draws>, choices: Draws -> set<nat>, d0: Draws, tails: set<Draws>)
    requires d0 in S && tails == set x | x in choices(d0) :: d0 + [x]
    ensures Extend(S, choices) == Extend(S - {d0}, choices) + tails
    ensures Extend(S - {d0}, choices) !! tails
  {
    forall e | e in Extend(S, choices)
      ensures e in Extend(S - {d0}, choices) + tails
    {
      var d, x := ExtendElim(S, choices, e);
      if d != d0 {
        ExtendIntro(S - {d0}, choices, d, x);
      }
    }
    forall e | e in Extend(S - {d0}, choices)
      ensures e !in tails
    {
      var d, x := ExtendElim(S - {d0}, choices, e);
      forall y | y in choices(d0)
        ensures e != d0 + [y]
      {
        SnocInjective(d, x, d0, y);
      }
    }
  }

  lemma {:induction false} DrawLength(n: nat, m: nat, d: Draws)
    requires n <= m && d in DrawSpace(n, m)
    ensures |d| == m - n && ValidDraws(n, d)
    decreases m
  {
    hide Extend, AnyBelow, Upto;
    if m > n {
      var e, x := ExtendElim(DrawSpace(n, m - 1), AnyBelow(m), d);
      BelowMeans(m, e, x);
      DrawLength(n, m - 1, e);
    }
  }

  /** One more candidate multiplies the number of sequences by the size of its draw. */
  lemma {:induction false} DrawSpaceCard(n: nat, m: nat)
    requires n < m
    ensures |DrawSpace(n, m)| == |DrawSpace(n, m - 1)| * m
  {
    hide Extend;
    ExtendCard(DrawSpace(n, m - 1), AnyBelow(m), m);
  }

  // ----- one more candidate -----

  /** Draws beyond those needed do not matter. */
  lemma {:induction false} ReservoirPrefix(n: nat, items: seq<nat>, d: Draws, x: nat)
    requires |items| <= n + |d|
    ensures Reservoir<nat>(n, items, d + [x]) == Reservoir<nat>(n, items, d)
    decreases |items|
  {
    if |items| > n {
      ReservoirPrefix(n, items[..|items| - 1], d, x);
    }
  }

  lemma KeptDistinct(n: nat, m: nat, d: Draws)
    requires m <= n + |d|
    ensures Distinct(Kept(n, m, d))
    ensures forall j: nat :: j in Kept(n, m, d) ==> j < m
  {
    hide Reservoir;
    ReservoirDistinct<nat>(n, Range(m), d);
    forall j: nat | j in Kept(n, m, d)
      ensures j < m
    {
      assert j in Range(m);
    }
  }

  /** The sample after one more candidate: it takes the slot drawn, if that is a slot. */
  lemma OneMore(n: nat, m: nat, d: Draws, x: nat)
    requires n < m && |d| == m - 1 - n
    ensures Kept(n, m, d + [x]) == if x < n then Kept(n, m - 1, d)[x := m - 1] else Kept(n, m - 1, d)
  {
    assert Range(m)[..m - 1] == Range(m - 1);
    ReservoirPrefix(n, Range(m - 1), d, x);
    assert (d + [x])[m - 1 - n] == x;
  }

  /** The draws that leave candidate j where it is. */
  ghost function Staying(n: nat, m: nat, j: nat): Draws -> set<nat>
    requires n < m
  {
    d => if |d| == m - 1 - n then set x: nat | x in Upto(m) && !(x < n && Kept(n, m - 1, d)[x] == j) else {}
  }

  lemma StayingCard(n: nat, m: nat, j: nat, d: Draws)
    requires n < m && |d| == m - 1 - n && j in Kept(n, m - 1, d)
    ensures |Staying(n, m, j)(d)| == m - 1
  {
    hide Kept;
    KeptDistinct(n, m - 1, d);
    var r := Kept(n, m - 1, d);
    var p: nat :| p < |r| && r[p] == j;
    assert Staying(n, m, j)(d) == Upto(m) - {p};
  }

  lemma EarlierStep(n: nat, m: nat, j: nat, d: Draws, x: nat)
    requires n < m && j < m - 1 && |d| == m - 1 - n && x < m
    ensures j in Kept(n, m, d + [x]) <==> j in Kept(n, m - 1, d) && x in Staying(n, m, j)(d)
  {
    hide Kept;
    KeptDistinct(n, m - 1, d);
    OneMore(n, m, d, x);
    var r, s := Kept(n, m - 1, d), Kept(n, m, d + [x]);
    if j in s {
      var p: nat :| p < |s| && s[p] == j;
      assert r[p] == j;
    }
    if j in r {
      var p: nat :| p < |r| && r[p] == j;
      assert p != x ==> s[p] == j;
    }
  }

  /** An earlier candidate stays in the sample after exactly the draws that miss its slot. */
  lemma KeepingEarlier(n: nat, m: nat, j: nat)
    requires n < m && j < m - 1
    ensures Keeping(n, m, j) == Extend(Keeping(n, m - 1, j), Staying(n, m, j))
  {
    hide Kept, Extend, Staying, AnyBelow;
    var stay := Staying(n, m, j);
    forall e | e in Keeping(n, m, j)
      ensures e in Extend(Keeping(n, m - 1, j), stay)
    {
      var d, x := ExtendElim(DrawSpace(n, m - 1), AnyBelow(m), e);
      BelowMeans(m, d, x);
      DrawLength(n, m - 1, d);
      EarlierStep(n, m, j, d, x);
      ExtendIntro(Keeping(n, m - 1, j), stay, d, x);
    }
    forall e | e in Extend(Keeping(n, m - 1, j), stay)
      ensures e in Keeping(n, m, j)
    {
      var d, x := ExtendElim(Keeping(n, m - 1, j), stay, e);
      StayingBelow(n, m, j, d, x);
      BelowMeans(m, d, x);
      EarlierStep(n, m, j, d, x);
      ExtendIntro(DrawSpace(n, m - 1), AnyBelow(m), d, x);
    }
  }

  lemma BelowMeans(k: nat, d: Draws, x: nat)
    ensures x in AnyBelow(k)(d) <==> x < k
  {
  }

  lemma StayingBelow(n: nat, m: nat, j: nat, d: Draws, x: nat)
    requires n < m && x in Staying(n, m, j)(d)
    ensures x < m
  {
  }

  /** The new candidate is kept after exactly the draws that name a slot. */
  lemma KeepingNewest(n: nat, m: nat)
    requires n < m
    ensures Keeping(n, m, m - 1) == Extend(DrawSpace(n, m - 1), AnyBelow(n))
  {
    hide Kept, Extend, AnyBelow;
    var j, space := m - 1, DrawSpace(n, m - 1);
    forall e | e in Keeping(n, m, j)
      ensures e in Extend(space, AnyBelow(n))
    {
      var d, x := ExtendElim(space, AnyBelow(m), e);
      DrawLength(n, m - 1, d);
      NewestStep(n, m, d, x);
      BelowMeans(n, d, x);
      ExtendIntro(space, AnyBelow(n), d, x);
    }
    forall e | e in Extend(space, AnyBelow(n))
      ensures e in Keeping(n, m, j)
    {
      var d, x := ExtendElim(space, AnyBelow(n), e);
      DrawLength(n, m - 1, d);
      NewestStep(n, m, d, x);
      BelowMeans(n, d, x);
      BelowMeans(m, d, x);
      ExtendIntro(space, AnyBelow(m), d, x);
    }
  }

  lemma NewestStep(n: nat, m: nat, d: Draws, x: nat)
    requires n < m && |d| == m - 1 - n
    ensures m - 1 in Kept(n, m, d + [x]) <==> x < n
  {
    hide Kept;
    KeptDistinct(n, m - 1, d);
    OneMore(n, m, d, x);
    if x < n {
      assert Kept(n, m, d + [x])[x] == m - 1;
    }
  }

  lemma KeepingNewestCard(n: nat, m: nat)
    requires n < m
    ensures |Keeping(n, m, m - 1)| == |DrawSpace(n, m - 1)| * n
  {
    hide Extend, Keeping, DrawSpace;
    KeepingNewest(n, m);
    ExtendCard(DrawSpace(n, m - 1), AnyBelow(n), n);
  }

  lemma KeepingEarlierCard(n: nat, m: nat, j: nat)
    requires n < m && j < m - 1
    ensures |Keeping(n, m, j)| == |Keeping(n, m - 1, j)| * (m - 1)
  {
    hide Kept, Staying, Extend, DrawSpace;
    forall d | d in Keeping(n, m - 1, j)
      ensures |Staying(n, m, j)(d)| == m - 1
    {
      StayingCard(n, m, j, d);
    }
    KeepingEarlier(n, m, j);
    ExtendCard(Keeping(n, m - 1, j), Staying(n, m, j), m - 1);
  }

  /** With as many places as candidates there is nothing to draw and all are kept. */
  lemma AllKept(n: nat, j: nat)
    requires j < n
    ensures Keeping(n, n, j) == {[]} == DrawSpace(n, n)
  {
    assert Range(n)[j] == j;
    assert j in Kept(n, n, []);
  }

  lemma Reassociate(a: nat, b: nat, c: nat)
    ensures a * b * c == b * (a * c)
  {
  }

  /**
   Fairness: counting every sequence of draws once, each of the m candidates is kept in exactly
   n out of m of them.
   */
  lemma {:induction false} KeptEqually(n: nat, m: nat, j: nat)
    requires n <= m && j < m
    ensures |Keeping(n, m, j)| * m == n * |DrawSpace(n, m)|
    decreases m
  {
    hide Keeping, DrawSpace;
    if m == n {
      AllKept(n, j);
    } else {
      DrawSpaceCard(n, m);
      var space := |DrawSpace(n, m - 1)|;
      if j == m - 1 {
        KeepingNewestCard(n, m);
        Reassociate(space, n, m);
      } else {
        KeptEqually(n, m - 1, j);
        KeepingEarlierCard(n, m, j);
        assert |Keeping(n, m, j)| == n * space;
        Reassociate(n, space, m);
        Reassociate(space, n, m);
      }
    }
  }
}
