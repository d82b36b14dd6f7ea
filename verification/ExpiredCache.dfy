/**
 The cache of recently expired remotes of src/handlers/tun.cpp, as a function of the history of
 expiries, and what it means for the addresses mapped to remotes.
 */
module ExpiredCache {
  import opened AddressMaps
  import opened Sequences

  function Without(s: seq<NetworkAddress>, x: NetworkAddress): seq<NetworkAddress> {
    if s == [] then [] else (if s[0] == x then [] else [s[0]]) + Without(s[1..], x)
  }

  /** Moves or adds an element to the end. */
  function Touch(s: seq<NetworkAddress>, x: NetworkAddress): seq<NetworkAddress> {
    Without(s, x) + [x]
  }

  /** What exceeds the size, at the front, and the rest. */
  function Dropped(s: seq<NetworkAddress>, keep: nat): seq<NetworkAddress> {
    if |s| <= keep then [] else s[..|s| - keep]
  }

  function Newest(s: seq<NetworkAddress>, keep: nat): seq<NetworkAddress> {
    if |s| <= keep then s else s[|s| - keep..]
  }

  /** The cache after a history of expiries. */
  function Cache(keep: nat, h: seq<NetworkAddress>): seq<NetworkAddress> {
    if h == [] then [] else Newest(Touch(Cache(keep, h[..|h| - 1]), h[|h| - 1]), keep)
  }

  /** All that ever expired, by the time of their last expiry. */
  function Recent(h: seq<NetworkAddress>): seq<NetworkAddress> {
    if h == [] then [] else Touch(Recent(h[..|h| - 1]), h[|h| - 1])
  }

  /** The expiries after the last one of x. */
  function Since(h: seq<NetworkAddress>, x: NetworkAddress): seq<NetworkAddress>
    requires x in h
  {
    if h[|h| - 1] == x then [] else Since(h[..|h| - 1], x) + [h[|h| - 1]]
  }

  // ----- the cache is the newest of the recent -----

  lemma WithoutCons(y: NetworkAddress, s: seq<NetworkAddress>, x: NetworkAddress)
    ensures Without([y] + s, x) == (if y == x then [] else [y]) + Without(s, x)
  {
  }

  lemma {:induction false} WithoutConcat(a: seq<NetworkAddress>, b: seq<NetworkAddress>, x: NetworkAddress)
    ensures Without(a + b, x) == Without(a, x) + Without(b, x)
  {
    if a == [] {
      assert a + b == b;
    } else {
      hide Without;
      var y, c := a[0], a[1..];
      WithoutConcat(c, b, x);
      WithoutCons(y, c, x);
      WithoutCons(y, c + b, x);
      assert a == [y] + c;
      Regroup([y], c, b);
      Regroup(if y == x then [] else [y], Without(c, x), Without(b, x));
    }
  }

  lemma Regroup(a: seq<NetworkAddress>, b: seq<NetworkAddress>, c: seq<NetworkAddress>)
    ensures (a + b) + c == a + (b + c)
  {
  }

  lemma {:induction false} WithoutMember(s: seq<NetworkAddress>, x: NetworkAddress, y: NetworkAddress)
    ensures y in Without(s, x) <==> y in s && y != x
  {
    if s != [] {
      WithoutMember(s[1..], x, y);
      assert y in s <==> y == s[0] || y in s[1..];
    }
  }

  lemma {:induction false} WithoutAbsent(s: seq<NetworkAddress>, x: NetworkAddress)
    requires x !in s
    ensures Without(s, x) == s
  {
    if s != [] {
      WithoutAbsent(s[1..], x);
    }
  }

  lemma {:induction false} WithoutDistinct(s: seq<NetworkAddress>, x: NetworkAddress)
    requires Distinct(s)
    ensures Distinct(Without(s, x)) && |s| - 1 <= |Without(s, x)| <= |s|
  {
    if s != [] {
      if s[0] == x {
        assert x !in s[1..];
        WithoutAbsent(s[1..], x);
      } else {
        WithoutDistinct(s[1..], x);
        var rest := Without(s[1..], x);
        WithoutMember(s[1..], x, s[0]);
        assert s[0] !in rest;
        assert Without(s, x) == [s[0]] + rest;
      }
    }
  }

  lemma TouchDistinct(s: seq<NetworkAddress>, x: NetworkAddress)
    requires Distinct(s)
    ensures Distinct(Touch(s, x))
  {
    hide Without;
    WithoutDistinct(s, x);
    var w := Without(s, x);
    WithoutMember(s, x, x);
    forall i, j | 0 <= i < j < |w + [x]|
      ensures (w + [x])[i] != (w + [x])[j]
    {
      assert w[i] in w;
    }
  }

  lemma {:induction false} RecentDistinct(h: seq<NetworkAddress>)
    ensures Distinct(Recent(h))
  {
    hide Distinct, Touch;
    if h == [] {
      EmptyDistinct();
    } else {
      RecentDistinct(h[..|h| - 1]);
      TouchDistinct(Recent(h[..|h| - 1]), h[|h| - 1]);
    }
  }

  lemma EmptyDistinct()
    ensures Distinct<NetworkAddress>([])
  {
  }

  lemma NewestOfLonger(a: seq<NetworkAddress>, b: seq<NetworkAddress>, keep: nat)
    requires keep <= |b|
    ensures Newest(a + b, keep) == Newest(b, keep)
  {
  }

  /** Dropping the oldest before a touch loses nothing that would be kept after it. */
  lemma TouchNewest(s: seq<NetworkAddress>, x: NetworkAddress, keep: nat)
    requires Distinct(s)
    ensures Newest(Touch(Newest(s, keep), x), keep) == Newest(Touch(s, x), keep)
  {
    hide Without;
    if |s| > keep {
      var a, b := s[..|s| - keep], s[|s| - keep..];
      assert s == a + b;
      WithoutConcat(a, b, x);
      WithoutDistinct(b, x);
      assert Touch(s, x) == Without(a, x) + Touch(b, x);
      NewestOfLonger(Without(a, x), Touch(b, x), keep);
    }
  }

  /** The bounded cache refines the unbounded record of last expiries. */
  lemma {:induction false} CacheIsNewest(keep: nat, h: seq<NetworkAddress>)
    ensures Cache(keep, h) == Newest(Recent(h), keep)
  {
    hide Touch;
    if h != [] {
      var g, x := h[..|h| - 1], h[|h| - 1];
      CacheIsNewest(keep, g);
      RecentDistinct(g);
      TouchNewest(Recent(g), x, keep);
    }
  }

  // ----- which remotes those are -----

  /** In the record, exactly the remotes expired since x come after x. */
  lemma {:induction false} RecentAround(h: seq<NetworkAddress>, x: NetworkAddress) returns (before: seq<NetworkAddress>, after: seq<NetworkAddress>)
    requires x in h
    ensures Recent(h) == before + [x] + after && x !in before && x !in after
    ensures Elems(after) == Elems(Since(h, x))
  {
    hide Without;
    var g, y := h[..|h| - 1], h[|h| - 1];
    if y == x {
      before, after := Without(Recent(g), x), [];
      WithoutMember(Recent(g), x, x);
    } else {
      assert x in g;
      var b, a := RecentAround(g, x);
      before, after := Without(b, y), Touch(a, y);
      TouchAround(b, x, a, y);
      WithoutMember(b, y, x);
      WithoutMember(a, y, x);
      TouchElems(a, y);
      ElemsPush(Since(g, x), y);
      assert Since(h, x) == Since(g, x) + [y];
    }
  }

  lemma TouchElems(s: seq<NetworkAddress>, y: NetworkAddress)
    ensures Elems(Touch(s, y)) == Elems(s) + {y}
  {
    hide Without;
    var w := Without(s, y);
    forall z
      ensures z in Elems(w + [y]) <==> z in Elems(s) + {y}
    {
      WithoutMember(s, y, z);
      assert z in w + [y] <==> z in w || z == y;
    }
  }

  lemma TouchAround(b: seq<NetworkAddress>, x: NetworkAddress, a: seq<NetworkAddress>, y: NetworkAddress)
    requires x != y
    ensures Touch(b + [x] + a, y) == Without(b, y) + [x] + Touch(a, y)
  {
    hide Without;
    WithoutConcat(b + [x], a, y);
    WithoutConcat(b, [x], y);
    WithoutAbsent([x], y);
  }

  lemma {:induction false} RecentMembers(h: seq<NetworkAddress>, x: NetworkAddress)
    ensures x in Recent(h) <==> x in h
  {
    hide Without;
    if h != [] {
      var g, y := h[..|h| - 1], h[|h| - 1];
      RecentMembers(g, x);
      WithoutMember(Recent(g), y, x);
      assert x in h <==> x in g || x == y;
    }
  }

  /** Remembered exactly while fewer than `keep` other remotes have expired since. */
  lemma Remembered(keep: nat, h: seq<NetworkAddress>, x: NetworkAddress)
    ensures x in Cache(keep, h) <==> x in h && |Elems(Since(h, x))| < keep
  {
    hide Recent, Cache, Elems, Since;
    CacheIsNewest(keep, h);
    RecentMembers(h, x);
    if x in h {
      var before, after := RecentAround(h, x);
      RecentDistinct(h);
      SuffixDistinct(before + [x], after);
      DistinctCount(after);
      NewestMember(before, x, after, keep);
    } else {
      assert x !in Newest(Recent(h), keep);
    }
  }

  lemma SuffixDistinct(a: seq<NetworkAddress>, b: seq<NetworkAddress>)
    requires Distinct(a + b)
    ensures Distinct(b)
  {
    forall i, j | 0 <= i < j < |b|
      ensures b[i] != b[j]
    {
      assert (a + b)[|a| + i] != (a + b)[|a| + j];
    }
  }

  lemma NewestMember(before: seq<NetworkAddress>, x: NetworkAddress, after: seq<NetworkAddress>, keep: nat)
    requires x !in before && x !in after
    ensures x in Newest(before + [x] + after, keep) <==> |after| < keep
  {
    var s := before + [x] + after;
    if |after| < keep {
      assert s[|before|] == x;
      if |s| > keep {
        assert s[|s| - keep..][|before| - (|s| - keep)] == x;
      }
    }
  }

  // ----- runs of mapping and expiring -----

  /** A remote given a local address, by map4 or map6, or expired. */
  datatype Op = Map(remote: NetworkAddress) | Expire(remote: NetworkAddress)

  datatype State = State(mapped: set<NetworkAddress>, cache: seq<NetworkAddress>)

  /** An expiry forgets the addresses of the remotes it pushes out of the cache. */
  function Step(keep: nat, s: State, op: Op): State {
    match op
    case Map(x) => s.(mapped := s.mapped + {x})
    case Expire(x) =>
      var touched := Touch(s.cache, x);
      State(s.mapped - Elems(Dropped(touched, keep)), Newest(touched, keep))
  }

  /** The state after a history, from some remotes mapped and none expired. */
  function Run(keep: nat, start: set<NetworkAddress>, h: seq<Op>): State {
    if h == [] then State(start, []) else Step(keep, Run(keep, start, h[..|h| - 1]), h[|h| - 1])
  }

  function Expiries(h: seq<Op>): seq<NetworkAddress> {
    if h == [] then []
    else Expiries(h[..|h| - 1]) + (if h[|h| - 1].Expire? then [h[|h| - 1].remote] else [])
  }

  lemma {:induction false} RunCache(keep: nat, start: set<NetworkAddress>, h: seq<Op>)
    ensures Run(keep, start, h).cache == Cache(keep, Expiries(h))
  {
    hide Touch, Newest;
    if h != [] {
      var g, op := h[..|h| - 1], h[|h| - 1];
      RunCache(keep, start, g);
      var e := Expiries(g);
      if op.Expire? {
        assert (e + [op.remote])[..|e|] == e;
      } else {
        assert e + [] == e;
      }
    }
  }

  /** Expired, and as many other remotes as the cache holds have expired since. */
  ghost predicate Forgotten(keep: nat, h: seq<Op>, x: NetworkAddress) {
    x in Expiries(h) && |Elems(Since(Expiries(h), x))| >= keep
  }

  lemma InCache(keep: nat, start: set<NetworkAddress>, h: seq<Op>, x: NetworkAddress)
    ensures x in Run(keep, start, h).cache <==> x in Expiries(h) && !Forgotten(keep, h, x)
  {
    hide Run, Expiries, Since, Elems;
    RunCache(keep, start, h);
    Remembered(keep, Expiries(h), x);
  }

  lemma SplitCache(s: seq<NetworkAddress>, keep: nat, x: NetworkAddress)
    requires Distinct(s)
    ensures x in Dropped(s, keep) <==> x in s && x !in Newest(s, keep)
  {
  }

  lemma {:induction false} CacheDistinct(keep: nat, h: seq<NetworkAddress>)
    ensures Distinct(Cache(keep, h))
  {
    hide Recent, Cache;
    CacheIsNewest(keep, h);
    RecentDistinct(h);
  }

  /** What one more operation, on another remote, does to the mapping of x. */
  lemma OtherOp(keep: nat, start: set<NetworkAddress>, h: seq<Op>, op: Op, x: NetworkAddress)
    requires op.remote != x
    ensures x in Run(keep, start, h + [op]).mapped <==>
              x in Run(keep, start, h).mapped && !(x in Run(keep, start, h).cache && x !in Run(keep, start, h + [op]).cache)
  {
    hide Touch, Elems, Dropped, Newest;
    assert (h + [op])[..|h|] == h;
    var s := Run(keep, start, h);
    if op.Expire? {
      var touched := Touch(s.cache, op.remote);
      RunCache(keep, start, h);
      CacheDistinct(keep, Expiries(h));
      TouchDistinct(s.cache, op.remote);
      SplitCache(touched, keep, x);
      TouchMember(s.cache, op.remote, x);
      ElemsIn(Dropped(touched, keep), x);
    }
  }

  lemma TouchMember(s: seq<NetworkAddress>, y: NetworkAddress, x: NetworkAddress)
    requires x != y
    ensures x in Touch(s, y) <==> x in s
  {
    WithoutMember(s, y, x);
    assert x in Touch(s, y) <==> x in Without(s, y);
  }

  lemma Grows(s: set<NetworkAddress>, x: NetworkAddress)
    ensures |s + {x}| >= |s|
  {
    if x in s {
      assert s + {x} == s;
    }
  }

  /** Expiries of others do not bring x back into the cache. */
  lemma StaysForgotten(keep: nat, h: seq<Op>, op: Op, x: NetworkAddress)
    requires op.remote != x
    ensures x in Expiries(h + [op]) <==> x in Expiries(h)
    ensures Forgotten(keep, h, x) ==> Forgotten(keep, h + [op], x)
  {
    hide Elems;
    assert (h + [op])[..|h|] == h;
    var e := Expiries(h);
    if op.Expire? {
      assert Expiries(h + [op]) == e + [op.remote];
      if x in e {
        assert (e + [op.remote])[..|e|] == e;
        assert Since(e + [op.remote], x) == Since(e, x) + [op.remote];
        ElemsPush(Since(e, x), op.remote);
        Grows(Elems(Since(e, x)), op.remote);
      }
    } else {
      assert Expiries(h + [op]) == e + [] == e;
    }
  }

  lemma JustMapped(keep: nat, start: set<NetworkAddress>, h: seq<Op>, x: NetworkAddress)
    requires h != [] && h[|h| - 1] == Map(x)
    ensures x in Run(keep, start, h).mapped
  {
  }

  /**
   When does a remote in use keep its address? After it was mapped, and while nothing more
   happens to it, exactly if it had not expired before, or had been forgotten already, or is still
   remembered: a mapping renewed from the cache is dropped with the old entry.
   */
  lemma {:induction false} InUseKept(keep: nat, start: set<NetworkAddress>, h: seq<Op>, t: seq<Op>, x: NetworkAddress)
    requires h != [] && h[|h| - 1] == Map(x) && forall i :: 0 <= i < |t| ==> t[i].remote != x
    ensures x in Run(keep, start, h + t).mapped <==>
              x !in Expiries(h) || Forgotten(keep, h, x) || !Forgotten(keep, h + t, x)
    ensures x in Expiries(h + t) <==> x in Expiries(h)
    ensures Forgotten(keep, h, x) ==> Forgotten(keep, h + t, x)
    decreases |t|
  {
    hide *;
    if t == [] {
      assert h + t == h;
      JustMapped(keep, start, h, x);
    } else {
      var u, op := t[..|t| - 1], t[|t| - 1];
      InUseKept(keep, start, h, u, x);
      assert h + t == (h + u) + [op];
      OtherOp(keep, start, h + u, op, x);
      StaysForgotten(keep, h + u, op, x);
      InCache(keep, start, h + u, x);
      InCache(keep, start, (h + u) + [op], x);
    }
  }

  /** With room for one, a remote mapped again while remembered loses its address to another's expiry. */
  lemma InUseLost(x: NetworkAddress, y: NetworkAddress)
    requires x != y
    ensures x !in Run(1, {}, [Map(x), Expire(x), Map(x), Expire(y)]).mapped
  {
    hide Run, Touch;
    var run := [Map(x), Expire(x), Map(x), Expire(y)];
    RunStep(1, {}, [], Map(x));
    RunStep(1, {}, [Map(x)], Expire(x));
    RunStep(1, {}, [Map(x), Expire(x)], Map(x));
    RunStep(1, {}, [Map(x), Expire(x), Map(x)], Expire(y));
    assert Run(1, {}, []) == State({}, []) by {
      RunEmpty(1, {});
    }
    TouchNew([], x);
    assert Touch([], x) == [x];
    TouchNew([x], y);
    assert Touch([x], y) == [x, y];
    assert run == [Map(x), Expire(x), Map(x)] + [Expire(y)];
    assert [Map(x), Expire(x), Map(x)] == [Map(x), Expire(x)] + [Map(x)];
    assert [Map(x), Expire(x)] == [Map(x)] + [Expire(x)];
    assert [Map(x)] == [] + [Map(x)];
    assert Run(1, {}, [Map(x)]) == State({x}, []);
    assert Run(1, {}, [Map(x), Expire(x)]).cache == [x];
    assert x in Dropped([x, y], 1) by {
      assert Dropped([x, y], 1) == [x];
    }
    ElemsIn(Dropped([x, y], 1), x);
  }

  lemma RunEmpty(keep: nat, start: set<NetworkAddress>)
    ensures Run(keep, start, []) == State(start, [])
  {
  }

  lemma RunStep(keep: nat, start: set<NetworkAddress>, h: seq<Op>, op: Op)
    ensures Run(keep, start, h + [op]) == Step(keep, Run(keep, start, h), op)
  {
  }

  lemma TouchNew(s: seq<NetworkAddress>, x: NetworkAddress)
    requires x !in s
    ensures Touch(s, x) == s + [x]
  {
    WithoutAbsent(s, x);
  }
}
