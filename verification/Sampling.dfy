/**
 Reservoir sampling of relay contacts (`sample_rcs` in src/nodedb.cpp): what is returned for
 every sequence of random draws, and how often, over all of them, each contact is kept.
 */
module Sampling {
  import opened WireBytes
  import opened RouterIds
  import opened RcIndex
  import opened Sequences

  const LIFETIME := 30 * 24 * 3600

  /** What sample_rcs looks at besides the contacts. */
  datatype Context = Context(
    now: int, isServiceNode: bool, self: RouterId, blacklist: set<RouterId>, wanted: Option<RelayContact -> bool>)

  predicate Admissible(c: Context, rc: RelayContact) {
    && c.now < rc.timestamp + LIFETIME
    && (if c.isServiceNode then rc.id != c.self else rc.id !in c.blacklist)
    && (c.wanted.Some? ==> c.wanted.value(rc))
  }

  function Admitted(c: Context, rcs: seq<RelayContact>): (a: seq<RelayContact>)
    ensures forall x :: x in a <==> x in rcs && Admissible(c, x)
  {
    if rcs == [] then []
    else
      var front := Admitted(c, rcs[..|rcs| - 1]);
      var rc := rcs[|rcs| - 1];
      assert rcs == rcs[..|rcs| - 1] + [rc];
      if Admissible(c, rc) then front + [rc] else front
  }

  /** One draw for each admitted contact after the first n, from 0 up to how many came before. */
  ghost predicate ValidDraws(n: nat, draws: seq<nat>) {
    forall k :: 0 <= k < |draws| ==> draws[k] <= n + k
  }

  /** The reservoir after `items`: the first n fill it, each later one replaces the slot drawn. */
  function Reservoir<T>(n: nat, items: seq<T>, draws: seq<nat>): (r: seq<T>)
    requires |items| <= n + |draws|
    ensures |r| == if |items| < n then |items| else n
    decreases |items|
  {
    if |items| <= n then items
    else
      var r := Reservoir(n, items[..|items| - 1], draws);
      var pos := draws[|items| - 1 - n];
      if pos < n then r[pos := items[|items| - 1]] else r
  }

  /** Whatever is drawn, what is kept are distinct items. */
  lemma {:induction false} ReservoirDistinct<T>(n: nat, items: seq<T>, draws: seq<nat>)
    requires |items| <= n + |draws| && Distinct(items)
    ensures Distinct(Reservoir(n, items, draws))
    ensures forall x :: x in Reservoir(n, items, draws) ==> x in items
    decreases |items|
  {
    if |items| > n {
      var front, last := items[..|items| - 1], items[|items| - 1];
      ReservoirDistinct(n, front, draws);
      var r := Reservoir(n, front, draws);
      assert last !in front;
      var pos := draws[|items| - 1 - n];
      if pos < n {
        var s := r[pos := last];
        forall i, j | 0 <= i < j < |s|
          ensures s[i] != s[j]
        {
          assert r[i] in r && r[j] in r;
        }
        forall x | x in s
          ensures x in items
        {
          assert x == last || x in r;
        }
      }
    }
  }

  lemma {:induction false} AdmittedDistinct(c: Context, rcs: seq<RelayContact>)
    requires Distinct(rcs)
    ensures Distinct(Admitted(c, rcs))
    decreases |rcs|
  {
    if rcs != [] {
      AdmittedDistinct(c, rcs[..|rcs| - 1]);
      assert rcs[|rcs| - 1] !in rcs[..|rcs| - 1];
    }
  }

  /**
   The loop of sample_rcs: a vector of n null pointers, filled slot by slot and cut to what was
   admitted. `draws` stands for the random engine.
   */
  method FillReservoir(c: Context, rcs: seq<RelayContact>, n: nat, draws: seq<nat>) returns (result: seq<RelayContact>)
    requires |Admitted(c, rcs)| <= n + |draws|
    ensures result == Reservoir(n, Admitted(c, rcs), draws)
  {
    hide Admissible, Slots, Reservoir;
    var rand := new Option<RelayContact>[n](_ => None);
    var admitted := 0;
    ghost var a: seq<RelayContact> := [];
    SlotsStart(n, draws, rand[..]);
    for i := 0 to |rcs|
      invariant admitted == |a| && a == Admitted(c, rcs[..i])
      invariant |a| <= n + |draws|
      invariant rand[..] == Slots(n, Reservoir(n, a, draws))
    {
      AdmittedNext(c, rcs, i);
      AdmittedGrows(c, rcs, i + 1);
      if !Admissible(c, rcs[i]) {
        continue;
      }
      Admit(rand, admitted, draws, rcs[i], a);
      a := a + [rcs[i]];
      admitted := admitted + 1;
    }
    assert rcs[..|rcs|] == rcs;
    var size := if admitted < n then admitted else n;
    result := Resized(rand, size, Reservoir(n, a, draws));
  }

  /** One more item: the next free slot, or the slot drawn, if it is one. */
  method Admit<T>(rand: array<Option<T>>, admitted: nat, draws: seq<nat>, x: T, ghost a: seq<T>)
    requires admitted == |a| < rand.Length + |draws|
    requires rand[..] == Slots(rand.Length, Reservoir(rand.Length, a, draws))
    modifies rand
    ensures rand[..] == Slots(rand.Length, Reservoir(rand.Length, a + [x], draws))
  {
    SlotsStep(rand.Length, a, draws, x);
    hide Slots, Reservoir;
    var pos := if admitted < rand.Length then admitted else draws[admitted - rand.Length];
    Place(rand, pos, x);
  }

  /** The item goes into its slot, if there is one. */
  method Place<T>(rand: array<Option<T>>, pos: nat, x: T)
    modifies rand
    ensures rand[..] == if pos < rand.Length then old(rand[..])[pos := Some(x)] else old(rand[..])
  {
    if pos < rand.Length {
      rand[pos] := Some(x);
    }
  }

  /** The slots in use. */
  method Resized<T(0)>(rand: array<Option<T>>, size: nat, ghost r: seq<T>) returns (result: seq<T>)
    requires |r| == size <= rand.Length && rand[..] == Slots(rand.Length, r)
    ensures result == r
  {
    SlotsFilled(rand.Length, r);
    hide Slots;
    assert rand[..][..size] == rand[..size];
    result := Filled(rand[..size]);
  }

  lemma AdmittedNext(c: Context, rcs: seq<RelayContact>, i: nat)
    requires i < |rcs|
    ensures Admitted(c, rcs[..i + 1])
            == if Admissible(c, rcs[i]) then Admitted(c, rcs[..i]) + [rcs[i]] else Admitted(c, rcs[..i])
  {
    assert rcs[..i + 1][..i] == rcs[..i];
  }

  lemma SlotsStart<T>(n: nat, draws: seq<nat>, s: seq<Option<T>>)
    requires |s| == n && forall i :: 0 <= i < n ==> s[i] == None
    ensures s == Slots(n, Reservoir<T>(n, [], draws))
  {
  }

  lemma SlotsFilled<T>(n: nat, r: seq<T>)
    requires |r| <= n
    ensures forall i :: 0 <= i < |r| ==> Slots(n, r)[i].Some?
    ensures Filled(Slots(n, r)[..|r|]) == r
  {
  }

  /**
   sample_rcs: exactly min(n, admissible) distinct admissible contacts, whatever is drawn; a
   shuffle (`swaps`) changes only their order.
   */
  method SampleRcs(c: Context, rcs: seq<RelayContact>, n: nat, draws: seq<nat>, shuffle: bool, swaps: seq<nat>)
    returns (result: seq<RelayContact>)
    requires Distinct(rcs)
    requires |Admitted(c, rcs)| <= n + |draws|
    requires |swaps| >= n && forall k :: 0 <= k < |swaps| ==> swaps[k] <= k
    ensures |result| == if |Admitted(c, rcs)| < n then |Admitted(c, rcs)| else n
    ensures Distinct(result) && forall x :: x in result ==> x in rcs && Admissible(c, x)
    ensures forall x :: x in result ==>
                          && c.now < x.timestamp + 2_592_000 && (c.wanted.Some? ==> c.wanted.value(x))
                          && (if c.isServiceNode then x.id != c.self else x.id !in c.blacklist)
    ensures multiset(result) == multiset(Reservoir(n, Admitted(c, rcs), draws))
    ensures !shuffle ==> result == Reservoir(n, Admitted(c, rcs), draws)
  {
    hide Admissible, Reservoir;
    result := FillReservoir(c, rcs, n, draws);
    AdmittedDistinct(c, rcs);
    ReservoirDistinct(n, Admitted(c, rcs), draws);
    if shuffle && |result| > 1 {
      ghost var kept := result;
      result := Shuffled(result, swaps);
      SamePermutation(result, kept);
    }
    AllAdmissible(c, result);
  }

  lemma AllAdmissible(c: Context, chosen: seq<RelayContact>)
    requires forall x :: x in chosen ==> Admissible(c, x)
    ensures forall x :: x in chosen ==>
                          && c.now < x.timestamp + 2_592_000 && (c.wanted.Some? ==> c.wanted.value(x))
                          && (if c.isServiceNode then x.id != c.self else x.id !in c.blacklist)
  {
  }

  lemma {:induction false} AdmittedGrows(c: Context, rcs: seq<RelayContact>, i: nat)
    requires i <= |rcs|
    ensures |Admitted(c, rcs[..i])| <= |Admitted(c, rcs)|
    decreases |rcs| - i
  {
    if i < |rcs| {
      AdmittedGrows(c, rcs, i + 1);
      assert rcs[..i + 1][..i] == rcs[..i];
    } else {
      assert rcs[..i] == rcs;
    }
  }

  /** The vector of pointers: the reservoir, and nulls in the slots not yet filled. */
  function Slots<T>(n: nat, r: seq<T>): (s: seq<Option<T>>)
    requires |r| <= n
    ensures |s| == n
  {
    seq(n, i requires 0 <= i < n => if i < |r| then Some(r[i]) else None)
  }

  lemma SlotsStep<T>(n: nat, a: seq<T>, draws: seq<nat>, x: T)
    requires |a| < n + |draws|
    ensures var s, pos := Slots(n, Reservoir(n, a, draws)), if |a| < n then |a| else draws[|a| - n];
            Slots(n, Reservoir(n, a + [x], draws)) == if pos < n then s[pos := Some(x)] else s
  {
  }

  /** The pointed-to contacts of slots none of which is null. */
  function Filled<T>(s: seq<Option<T>>): (r: seq<T>)
    requires forall i :: 0 <= i < |s| ==> s[i].Some?
    ensures |r| == |s| && forall i :: 0 <= i < |s| ==> r[i] == s[i].value
  {
    seq(|s|, i requires 0 <= i < |s| => s[i].value)
  }

  /** A shuffle by swaps. */
  method Shuffled<T>(s: seq<T>, swaps: seq<nat>) returns (r: seq<T>)
    requires |swaps| >= |s| && forall k :: 0 <= k < |swaps| ==> swaps[k] <= k
    ensures multiset(r) == multiset(s)
  {
    r := s;
    for i := 0 to |s|
      invariant |r| == |s| && multiset(r) == multiset(s)
    {
      var j := swaps[i];
      SwapKeeps(r, i, j);
      r := r[i := r[j]][j := r[i]];
    }
  }

  lemma SwapKeeps<T>(s: seq<T>, i: nat, j: nat)
    requires i < |s| && j < |s|
    ensures multiset(s[i := s[j]][j := s[i]]) == multiset(s)
  {
  }

  /** A permutation of distinct items is distinct and holds the same ones. */
  lemma SamePermutation<T>(a: seq<T>, b: seq<T>)
    requires multiset(a) == multiset(b) && Distinct(b)
    ensures |a| == |b| && Distinct(a) && forall x :: x in a <==> x in b
  {
    assert |multiset(a)| == |a| && |multiset(b)| == |b|;
    forall x
      ensures x in a <==> x in b
    {
      assert x in multiset(a) <==> x in multiset(b);
    }
    forall i, j | 0 <= i < j < |a|
      ensures a[i] != a[j]
    {
      if a[i] == a[j] {
        TwiceInMultiset(a, i, j);
        OnceInMultiset(b, a[i]);
      }
    }
  }

  lemma TwiceInMultiset<T>(a: seq<T>, i: nat, j: nat)
    requires i < j < |a| && a[i] == a[j]
    ensures multiset(a)[a[i]] >= 2
  {
    assert a == a[..j] + a[j..];
    assert a[i] in a[..j] && a[i] in a[j..];
  }

  lemma {:induction false} OnceInMultiset<T>(b: seq<T>, x: T)
    requires Distinct(b)
    ensures multiset(b)[x] <= 1
    decreases |b|
  {
    if b != [] {
      var front, last := b[..|b| - 1], b[|b| - 1];
      OnceInMultiset(front, x);
      assert b == front + [last];
      if x == last {
        assert last !in front;
      }
    }
  }
}
