/**
 Reachability testing of relays (src/consensus/reachability_testing.cpp): a set of failing
 relays, a priority queue of retests and the tests in flight. No failing relay drops out.
 */
module Reachability {
  import opened WireBytes
  import opened RouterIds

  const MAX_RETESTS_PER_TICK := 3
  const RETEST_BACKOFF := 10_000_000 // microseconds
  const RETEST_MAX := 120_000_000

  /** An entry of the failing queue. */
  datatype Retest = Retest(pk: RouterId, time: int, failures: int)

  /** A relay to test and how often it has failed so far. */
  datatype Test = Test(pk: RouterId, prevFails: int)

  /** The wait after n consecutive failures; `noise` is the normal draw, of any sign and size. */
  function RetestInterval(nFailures: int, noise: int): (t: int)
    ensures 0 <= t <= RETEST_MAX
    ensures noise == 0 && 1 <= nFailures <= 12 ==> t == nFailures * RETEST_BACKOFF
  {
    var n := if nFailures < 1 then 1 else nFailures;
    var wait := n * RETEST_BACKOFF + noise;
    if wait < 0 then 0 else if wait > RETEST_MAX then RETEST_MAX else wait
  }

  /** The entry add_failing_node queues for a relay with so many failures before this one. */
  function NextRetest(pk: RouterId, previousFailures: int, now: int, noise: int): (e: Retest)
    ensures e.pk == pk && now <= e.time <= now + RETEST_MAX
    ensures e.failures == 1 + if previousFailures < 0 then 0 else previousFailures
    ensures noise == 0 && 1 <= e.failures <= 12 ==> e.time == now + e.failures * 10_000_000
  {
    var n := (if previousFailures < 0 then 0 else previousFailures) + 1;
    Retest(pk, now + RetestInterval(n, noise), n)
  }

  /** More failures never shorten the wait. */
  lemma BackoffMonotone(m: int, n: int, noise: int)
    requires m <= n
    ensures RetestInterval(m, noise) <= RetestInterval(n, noise)
  {
  }

  // ----- the queue -----

  /** A due-first queue: the top is any entry with the earliest time. */
  predicate IsTop(q: multiset<Retest>, e: Retest) {
    e in q && forall x :: x in q ==> e.time <= x.time
  }

  lemma {:induction false} TopExists(q: multiset<Retest>)
    requires q != multiset{}
    ensures exists e :: IsTop(q, e)
    decreases |q|
  {
    var x :| x in q;
    var rest := q - multiset{x};
    assert q == rest + multiset{x};
    assert forall y :: y in q ==> y == x || y in rest;
    if rest == multiset{} {
      assert IsTop(q, x);
    } else {
      TopExists(rest);
      var e :| IsTop(rest, e);
      if x.time <= e.time {
        assert IsTop(q, x);
      } else {
        assert IsTop(q, e);
      }
    }
  }

  /** What get_failing returns for the entries it takes off: those still failing, in order. */
  function StillFailing(taken: seq<Retest>, failing: set<RouterId>): seq<Test> {
    if taken == [] then []
    else
      var front, e := StillFailing(taken[..|taken| - 1], failing), taken[|taken| - 1];
      if e.pk in failing then front + [Test(e.pk, e.failures)] else front
  }

  /** Entries taken off at time `now`: due, in due order, leaving only entries no earlier. */
  ghost predicate DueOrder(taken: seq<Retest>, left: multiset<Retest>, now: int) {
    && (forall i, j :: 0 <= i <= j < |taken| ==> taken[i].time <= taken[j].time)
    && (forall i :: 0 <= i < |taken| ==> taken[i].time <= now)
    && (forall e, i :: e in left && 0 <= i < |taken| ==> taken[i].time <= e.time)
  }

  lemma DueOrderMore(taken: seq<Retest>, left: multiset<Retest>, now: int, e: Retest)
    requires DueOrder(taken, left, now) && IsTop(left, e) && e.time <= now
    ensures DueOrder(taken + [e], left - multiset{e}, now)
  {
  }

  lemma TakeOne(q: multiset<Retest>, taken: seq<Retest>, left: multiset<Retest>, e: Retest)
    requires q == left + multiset(taken) && e in left
    ensures q == (left - multiset{e}) + multiset(taken + [e])
  {
  }

  lemma StillFailingMore(taken: seq<Retest>, failing: set<RouterId>, e: Retest)
    ensures StillFailing(taken + [e], failing)
            == if e.pk in failing then StillFailing(taken, failing) + [Test(e.pk, e.failures)] else StillFailing(taken, failing)
  {
  }

  /** Exactly the entries of failing relays are reported, with their failures. */
  lemma {:induction false} StillFailingMeans(taken: seq<Retest>, failing: set<RouterId>, t: Test)
    ensures multiset(StillFailing(taken, failing))[t] == EntriesFor(taken, t) * (if t.pk in failing then 1 else 0)
    decreases |taken|
  {
    if taken != [] {
      StillFailingMeans(taken[..|taken| - 1], failing, t);
    }
  }

  /** How many entries are for this relay with this many failures. */
  function EntriesFor(taken: seq<Retest>, t: Test): nat {
    if taken == [] then 0
    else
      var e := taken[|taken| - 1];
      EntriesFor(taken[..|taken| - 1], t) + (if e.pk == t.pk && e.failures == t.prevFails then 1 else 0)
  }

  // ----- what a tick starts -----

  /** The tests that are pinged: of registered relays with a usable contact. */
  function Pinged(tests: seq<Test>, registered: set<RouterId>, usable: set<RouterId>): seq<Test> {
    if tests == [] then []
    else
      var t := tests[|tests| - 1];
      Pinged(tests[..|tests| - 1], registered, usable) +
      (if t.pk in registered && t.pk in usable then [t] else [])
  }

  /** The retests queued at once: of registered relays without one. */
  function Requeued(tests: seq<Test>, registered: set<RouterId>, usable: set<RouterId>, now: int, noise: nat -> int)
    : seq<Retest>
  {
    if tests == [] then []
    else
      var n := |tests| - 1;
      var t := tests[n];
      Requeued(tests[..n], registered, usable, now, noise) +
      (if t.pk in registered && t.pk !in usable then [NextRetest(t.pk, t.prevFails, now, noise(n))] else [])
  }

  /** The failing relays after the tests have been started. */
  function FailingAfter(failing: set<RouterId>, tests: seq<Test>, registered: set<RouterId>, usable: set<RouterId>)
    : set<RouterId>
  {
    if tests == [] then failing
    else
      var f, pk := FailingAfter(failing, tests[..|tests| - 1], registered, usable), tests[|tests| - 1].pk;
      if pk !in registered then f - {pk} else if pk !in usable then f + {pk} else f
  }

  /** A tested relay leaves if it is not registered, and joins if it is but has no usable contact. */
  lemma {:induction false} FailingMeans(failing: set<RouterId>, tests: seq<Test>, registered: set<RouterId>,
                                        usable: set<RouterId>, pk: RouterId)
    ensures pk in FailingAfter(failing, tests, registered, usable) <==>
              if Tested(tests, pk) && pk !in usable then pk in registered
              else pk in failing && (Tested(tests, pk) ==> pk in registered)
    decreases |tests|
  {
    if tests != [] {
      var n := |tests| - 1;
      FailingMeans(failing, tests[..n], registered, usable, pk);
      TestedNext(tests, n, pk);
      assert tests[..n + 1] == tests;
    }
  }

  lemma TestedNext(tests: seq<Test>, i: nat, pk: RouterId)
    requires i < |tests|
    ensures Tested(tests[..i + 1], pk) <==> Tested(tests[..i], pk) || pk == tests[i].pk
  {
    var now, before := tests[..i + 1], tests[..i];
    assert now == before + [tests[i]];
    if Tested(before, pk) {
      var j :| 0 <= j < |before| && before[j].pk == pk;
      assert now[j].pk == pk;
    }
    if pk == tests[i].pk {
      assert now[i].pk == pk;
    }
  }

  /** The state of the scheduler while the tests of a tick are started. */
  datatype Sched = Sched(failing: set<RouterId>, queue: multiset<Retest>, flying: multiset<Test>)

  /** The next test started: dropped, failed at once, or pinged. */
  function AfterTest(s: Sched, t: Test, registered: set<RouterId>, usable: set<RouterId>, now: int, noise: int): Sched {
    if t.pk !in registered then s.(failing := s.failing - {t.pk})
    else if t.pk !in usable then
      s.(failing := s.failing + {t.pk}, queue := s.queue + multiset{NextRetest(t.pk, t.prevFails, now, noise)})
    else s.(flying := s.flying + multiset{t})
  }

  function AfterTests(s: Sched, tests: seq<Test>, registered: set<RouterId>, usable: set<RouterId>, now: int,
                      noise: nat -> int): Sched
  {
    if tests == [] then s
    else
      var n := |tests| - 1;
      AfterTest(AfterTests(s, tests[..n], registered, usable, now, noise), tests[n], registered, usable, now, noise(n))
  }

  /** Exactly the pinged tests are in flight besides, exactly the others' retests queued. */
  lemma {:induction false} TestsMean(s: Sched, tests: seq<Test>, registered: set<RouterId>, usable: set<RouterId>,
                                     now: int, noise: nat -> int)
    ensures var t := AfterTests(s, tests, registered, usable, now, noise);
            && t.failing == FailingAfter(s.failing, tests, registered, usable)
            && t.queue == s.queue + multiset(Requeued(tests, registered, usable, now, noise))
            && t.flying == s.flying + multiset(Pinged(tests, registered, usable))
    decreases |tests|
  {
    if tests != [] {
      TestsMean(s, tests[..|tests| - 1], registered, usable, now, noise);
    }
  }

  predicate Tested(tests: seq<Test>, pk: RouterId) {
    exists i :: 0 <= i < |tests| && tests[i].pk == pk
  }

  // ----- who is tracked -----

  ghost predicate Queued(q: multiset<Retest>, pk: RouterId) {
    exists e :: e in q && e.pk == pk
  }

  ghost predicate Flying(f: multiset<Test>, pk: RouterId) {
    exists t :: t in f && t.pk == pk
  }

  ghost predicate Pending(tests: seq<Test>, from: nat, pk: RouterId) {
    exists j :: from <= j < |tests| && tests[j].pk == pk
  }

  /** Each failing relay has a retest queued, a test in flight, or one about to be started. */
  ghost predicate Covered(failing: set<RouterId>, q: multiset<Retest>, f: multiset<Test>, tests: seq<Test>, from: nat) {
    forall pk :: pk in failing ==> Queued(q, pk) || Flying(f, pk) || Pending(tests, from, pk)
  }

  /** No failing relay is lost. */
  ghost predicate NoneLost(failing: set<RouterId>, q: multiset<Retest>, f: multiset<Test>) {
    forall pk :: pk in failing ==> Queued(q, pk) || Flying(f, pk)
  }

  lemma PendingMore(tests: seq<Test>, t: Test, pk: RouterId)
    ensures Pending(tests, 0, pk) ==> Pending(tests + [t], 0, pk)
  {
    if j :| 0 <= j < |tests| && tests[j].pk == pk {
      assert (tests + [t])[j].pk == pk;
    }
  }

  /** The three ways a test of the tick ends leave every failing relay covered. */
  lemma DroppedKeepsCover(failing: set<RouterId>, q: multiset<Retest>, f: multiset<Test>, tests: seq<Test>, i: nat)
    requires i < |tests| && Covered(failing, q, f, tests, i)
    ensures Covered(failing - {tests[i].pk}, q, f, tests, i + 1)
  {
  }

  lemma FailedKeepsCover(failing: set<RouterId>, q: multiset<Retest>, f: multiset<Test>, tests: seq<Test>, i: nat, e: Retest)
    requires i < |tests| && Covered(failing, q, f, tests, i) && e.pk == tests[i].pk
    ensures Covered(failing + {e.pk}, q + multiset{e}, f, tests, i + 1)
  {
  }

  lemma PingedKeepsCover(failing: set<RouterId>, q: multiset<Retest>, f: multiset<Test>, tests: seq<Test>, i: nat)
    requires i < |tests| && Covered(failing, q, f, tests, i)
    ensures Covered(failing, q, f + multiset{tests[i]}, tests, i + 1)
  {
  }

  /** Taking due entries off the queue leaves their failing relays among the tests. */
  lemma TakingKeepsCover(failing: set<RouterId>, left: multiset<Retest>, f: multiset<Test>, taken: seq<Retest>)
    requires NoneLost(failing, left + multiset(taken), f)
    ensures Covered(failing, left, f, StillFailing(taken, failing), 0)
  {
    hide Flying, StillFailing;
    forall pk | pk in failing && !Queued(left, pk) && !Flying(f, pk)
      ensures Pending(StillFailing(taken, failing), 0, pk)
    {
      var e :| e in left + multiset(taken) && e.pk == pk;
      assert e !in left;
      var i :| 0 <= i < |taken| && taken[i] == e;
      InStillFailing(taken, failing, i);
    }
  }

  /** An entry taken off for a failing relay is reported. */
  lemma {:induction false} InStillFailing(taken: seq<Retest>, failing: set<RouterId>, i: nat)
    requires i < |taken| && taken[i].pk in failing
    ensures Pending(StillFailing(taken, failing), 0, taken[i].pk)
    decreases |taken|
  {
    var front, e := StillFailing(taken[..|taken| - 1], failing), taken[|taken| - 1];
    var all := StillFailing(taken, failing);
    if i < |taken| - 1 {
      InStillFailing(taken[..|taken| - 1], failing, i);
      var j :| 0 <= j < |front| && front[j].pk == taken[i].pk;
      assert all[j].pk == taken[i].pk;
    } else {
      assert all[|front|].pk == e.pk;
    }
  }

  lemma RandomKeepsCover(failing: set<RouterId>, q: multiset<Retest>, f: multiset<Test>, tests: seq<Test>, t: Test)
    requires Covered(failing, q, f, tests, 0)
    ensures Covered(failing, q, f, tests + [t], 0)
  {
    hide Queued, Flying, Pending;
    forall pk | pk in failing
      ensures Queued(q, pk) || Flying(f, pk) || Pending(tests + [t], 0, pk)
    {
      PendingMore(tests, t, pk);
    }
  }

  lemma AllStarted(failing: set<RouterId>, q: multiset<Retest>, f: multiset<Test>, tests: seq<Test>)
    requires Covered(failing, q, f, tests, |tests|)
    ensures NoneLost(failing, q, f)
  {
  }

  /** A finished test: the relay is cleared, or queued for a retest. */
  lemma FinishedKeepsAll(failing: set<RouterId>, q: multiset<Retest>, f: multiset<Test>, t: Test, e: Retest)
    requires NoneLost(failing, q, f) && t in f && e.pk == t.pk
    ensures NoneLost(failing - {t.pk}, q, f - multiset{t})
    ensures NoneLost(failing + {t.pk}, q + multiset{e}, f - multiset{t})
  {
  }

  // ----- the random tests -----

  /** The last relay of the queue that is not failing, and the queue before it; or none and nothing left. */
  ghost predicate PickedFrom(q: seq<RouterId>, failing: set<RouterId>, pick: Option<RouterId>, rest: seq<RouterId>) {
    if pick.Some? then
      rest + [pick.value] <= q && pick.value !in failing && forall i :: |rest| < i < |q| ==> q[i] in failing
    else rest == [] && forall pk :: pk in q ==> pk in failing
  }

  /** The queue is filled again only once everyone left in it is failing. */
  ghost predicate NextPick(
    q: seq<RouterId>, order: seq<RouterId>, failing: set<RouterId>, pick: Option<RouterId>, rest: seq<RouterId>)
  {
    if forall pk :: pk in q ==> pk in failing then PickedFrom(order, failing, pick, rest)
    else PickedFrom(q, failing, pick, rest)
  }

  lemma StillQueued(
    q: seq<RouterId>, order: seq<RouterId>, failing: set<RouterId>, pick: Option<RouterId>, rest: seq<RouterId>,
    pk: RouterId)
    requires NextPick(q, order, failing, pick, rest) && pk in q && pk !in failing && pick != Some(pk)
    ensures pk in rest && |rest| < |q|
  {
    var i :| 0 <= i < |q| && q[i] == pk;
    assert pick.Some? && (rest + [pick.value])[|rest|] == q[|rest|];
    assert i < |rest| && rest[i] == (rest + [pick.value])[i];
  }

  /** A tick: what it found in the queue, was given to refill it with, picked and left. */
  datatype Pick = Pick(
    q: seq<RouterId>, order: seq<RouterId>, failing: set<RouterId>, pick: Option<RouterId>, rest: seq<RouterId>)

  ghost predicate Picks(ps: seq<Pick>) {
    && (forall p :: p in ps ==> NextPick(p.q, p.order, p.failing, p.pick, p.rest))
    && (forall k :: 0 < k < |ps| ==> ps[k].q == ps[k - 1].rest)
  }

  /** No relay in the queue waits longer than the queue is long, as long as it is not failing. */
  lemma {:induction false} QueuedIsPicked(ps: seq<Pick>, pk: RouterId)
    requires Picks(ps) && ps != [] && pk in ps[0].q && |ps| >= |ps[0].q|
    requires forall p :: p in ps ==> pk !in p.failing
    ensures exists p :: p in ps && p.pick == Some(pk)
    decreases |ps|
  {
    hide NextPick;
    var p, later := ps[0], ps[1..];
    if p.pick != Some(pk) {
      StillQueued(p.q, p.order, p.failing, p.pick, p.rest, pk);
      assert later != [] && later[0].q == p.rest;
      QueuedIsPicked(later, pk);
    }
  }

  class ReachabilityTesting {
    var testingQueue: seq<RouterId>
    var failingQueue: multiset<Retest>
    var failing: set<RouterId>
    var inFlight: multiset<Test>  // pings sent, their callbacks to come

    /** No failing relay is lost: each has a retest queued or a test in flight. */
    ghost predicate Valid()
      reads this
    {
      NoneLost(failing, failingQueue, inFlight)
    }

    constructor ()
      ensures Valid() && failing == {} && testingQueue == [] && failingQueue == multiset{} && inFlight == multiset{}
    {
      testingQueue, failingQueue, failing, inFlight := [], multiset{}, {}, multiset{};
    }

    /** add_failing_node */
    method AddFailingNode(pk: RouterId, previousFailures: int, now: int, noise: int)
      modifies this`failing, this`failingQueue
      ensures failing == old(failing) + {pk}
      ensures failingQueue == old(failingQueue) + multiset{NextRetest(pk, previousFailures, now, noise)}
    {
      failing := failing + {pk};
      failingQueue := failingQueue + multiset{NextRetest(pk, previousFailures, now, noise)};
    }

    /** remove_node_from_failing; entries for it in the queue are skipped when they come up. */
    method RemoveNodeFromFailing(pk: RouterId)
      modifies this`failing
      ensures failing == old(failing) - {pk}
    {
      failing := failing - {pk};
    }

    /**
     get_failing: at most three relays, in due order; what is left in the queue is no earlier,
     and unless three were found it is not yet due.
     */
    method GetFailing(now: int) returns (result: seq<Test>, ghost taken: seq<Retest>)
      modifies this`failingQueue
      ensures old(failingQueue) == failingQueue + multiset(taken) && DueOrder(taken, failingQueue, now)
      ensures result == StillFailing(taken, failing) && |result| <= MAX_RETESTS_PER_TICK
      ensures |result| < MAX_RETESTS_PER_TICK ==> forall e :: e in failingQueue ==> e.time > now
    {
      hide DueOrder, StillFailing;
      result, taken := [], [];
      assert DueOrder(taken, failingQueue, now) && StillFailing(taken, failing) == [] by {
        NothingTaken(failingQueue, failing, now);
      }
      while failingQueue != multiset{} && |result| < MAX_RETESTS_PER_TICK
        invariant old(failingQueue) == failingQueue + multiset(taken) && DueOrder(taken, failingQueue, now)
        invariant result == StillFailing(taken, failing) && |result| <= MAX_RETESTS_PER_TICK
        decreases |failingQueue|
      {
        TopExists(failingQueue);
        var top :| IsTop(failingQueue, top);
        if top.time > now {
          break;
        }
        TakeOne(old(failingQueue), taken, failingQueue, top);
        DueOrderMore(taken, failingQueue, now, top);
        StillFailingMore(taken, failing, top);
        if top.pk in failing {
          result := result + [Test(top.pk, top.failures)];
        }
        failingQueue := failingQueue - multiset{top};
        taken := taken + [top];
      }
    }

    /**
     next_random: never a failing relay, and nothing only when every relay left in the queue and
     every registered one is failing. `order` is the shuffled list of registered relays.
     */
    method NextRandom(order: seq<RouterId>) returns (sn: Option<RouterId>)
      modifies this`testingQueue
      ensures sn.Some? ==> sn.value !in failing && (sn.value in old(testingQueue) || sn.value in order)
      ensures sn.None? <==> forall pk :: pk in old(testingQueue) || pk in order ==> pk in failing
      ensures NextPick(old(testingQueue), order, failing, sn, testingQueue)
    {
      sn := PopUntilGood();
      if sn.Some? {
        return;
      }
      testingQueue := order;
      sn := PopUntilGood();
    }

    /** The loop that pops off the back until a relay that is not failing turns up. */
    method PopUntilGood() returns (sn: Option<RouterId>)
      modifies this`testingQueue
      ensures PickedFrom(old(testingQueue), failing, sn, testingQueue)
      ensures sn.Some? ==> sn.value in old(testingQueue)
      ensures sn.None? <==> forall pk :: pk in old(testingQueue) ==> pk in failing
    {
      ghost var q := testingQueue;
      while testingQueue != []
        invariant testingQueue <= q
        invariant forall i :: |testingQueue| <= i < |q| ==> q[i] in failing
        decreases |testingQueue|
      {
        var n := |testingQueue| - 1;
        var pk := testingQueue[n];
        assert q[n] == pk;
        testingQueue := testingQueue[..n];
        if pk !in failing {
          return Some(pk);
        }
      }
      return None;
    }

    /** The callback of a ping: the relay answered, or the test failed or timed out. */
    method PingDone(t: Test, success: bool, now: int, noise: int)
      requires Valid() && t in inFlight
      modifies this`failing, this`failingQueue, this`inFlight
      ensures Valid() && inFlight == old(inFlight) - multiset{t}
      ensures failing == if success then old(failing) - {t.pk} else old(failing) + {t.pk}
      ensures failingQueue == if success then old(failingQueue)
                              else old(failingQueue) + multiset{NextRetest(t.pk, t.prevFails, now, noise)}
    {
      hide NoneLost;
      FinishedKeepsAll(failing, failingQueue, inFlight, t, NextRetest(t.pk, t.prevFails, now, noise));
      inFlight := inFlight - multiset{t};
      if success {
        RemoveNodeFromFailing(t.pk);
      } else {
        AddFailingNode(t.pk, t.prevFails, now, noise);
      }
    }

    /**
     tick: the earliest due retests, at most three of relays still failing, and one relay that is
     not failing, if there is any. A relay no longer registered is dropped, one without a usable
     contact fails at once, any other is pinged.
     */
    method Tick(now: int, order: seq<RouterId>, registered: set<RouterId>, usable: set<RouterId>, noise: nat -> int)
      returns (ghost taken: seq<Retest>, ghost random: Option<RouterId>, ghost tests: seq<Test>)
      requires Valid()
      modifies this
      ensures Valid()
      ensures multiset(taken) <= old(failingQueue) && DueOrder(taken, old(failingQueue) - multiset(taken), now)
      ensures var retests := StillFailing(taken, old(failing));
              && |retests| <= MAX_RETESTS_PER_TICK
              && (|retests| < MAX_RETESTS_PER_TICK ==>
                    forall e :: e in old(failingQueue) - multiset(taken) ==> e.time > now)
              && tests == retests + (if random.Some? then [Test(random.value, 0)] else [])
      ensures random.Some? ==>
                random.value !in old(failing) && (random.value in old(testingQueue) || random.value in order)
      ensures random.None? <==> forall pk :: pk in old(testingQueue) || pk in order ==> pk in old(failing)
      ensures NextPick(old(testingQueue), order, old(failing), random, testingQueue)
      ensures inFlight == old(inFlight) + multiset(Pinged(tests, registered, usable))
      ensures failingQueue ==
              old(failingQueue) - multiset(taken) + multiset(Requeued(tests, registered, usable, now, noise))
      ensures forall pk :: pk in failing <==>
                if Tested(tests, pk) && pk !in usable then pk in registered
                else pk in old(failing) && (Tested(tests, pk) ==> pk in registered)
    {
      hide NoneLost, Covered, StillFailing, DueOrder, Pinged, Requeued, FailingAfter, AfterTests, Tested, NextPick;
      var result;
      result, taken := GetFailing(now);
      assert old(failingQueue) - multiset(taken) == failingQueue;
      TakingKeepsCover(failing, failingQueue, inFlight, taken);
      var maybe := NextRandom(order);
      random := maybe;
      if maybe.Some? {
        RandomKeepsCover(failing, failingQueue, inFlight, result, Test(maybe.value, 0));
        result := result + [Test(maybe.value, 0)];
      }
      tests := result;
      ghost var before := State();
      RunTests(result, now, registered, usable, noise);
      TestsMean(before, tests, registered, usable, now, noise);
      forall pk
        ensures pk in failing <==>
                if Tested(tests, pk) && pk !in usable then pk in registered
                else pk in old(failing) && (Tested(tests, pk) ==> pk in registered)
      {
        FailingMeans(old(failing), tests, registered, usable, pk);
      }
    }

    function State(): Sched
      reads this
    {
      Sched(failing, failingQueue, inFlight)
    }

    /** The loop of tick. */
    method RunTests(tests: seq<Test>, now: int, registered: set<RouterId>, usable: set<RouterId>, noise: nat -> int)
      requires Covered(failing, failingQueue, inFlight, tests, 0)
      modifies this`failing, this`failingQueue, this`inFlight
      ensures Valid()
      ensures State() == AfterTests(old(State()), tests, registered, usable, now, noise)
    {
      hide NoneLost, Covered, AfterTest;
      assert tests[..0] == [];
      for i := 0 to |tests|
        invariant Covered(failing, failingQueue, inFlight, tests, i)
        invariant State() == AfterTests(old(State()), tests[..i], registered, usable, now, noise)
      {
        assert tests[..i + 1][..i] == tests[..i];
        RunTest(tests, i, now, registered, usable, noise(i));
      }
      assert tests[..|tests|] == tests;
      AllStarted(failing, failingQueue, inFlight, tests);
    }

    /** The loop body of tick. */
    method RunTest(tests: seq<Test>, i: nat, now: int, registered: set<RouterId>, usable: set<RouterId>, noise: int)
      requires i < |tests| && Covered(failing, failingQueue, inFlight, tests, i)
      modifies this`failing, this`failingQueue, this`inFlight
      ensures Covered(failing, failingQueue, inFlight, tests, i + 1)
      ensures State() == AfterTest(old(State()), tests[i], registered, usable, now, noise)
    {
      hide Covered;
      var t := tests[i];
      if t.pk !in registered {
        DroppedKeepsCover(failing, failingQueue, inFlight, tests, i);
        RemoveNodeFromFailing(t.pk);
      } else if t.pk !in usable {
        FailedKeepsCover(failing, failingQueue, inFlight, tests, i, NextRetest(t.pk, t.prevFails, now, noise));
        AddFailingNode(t.pk, t.prevFails, now, noise);
      } else {
        PingedKeepsCover(failing, failingQueue, inFlight, tests, i);
        inFlight := inFlight + multiset{t};
      }
    }
  }

  lemma NothingTaken(q: multiset<Retest>, failing: set<RouterId>, now: int)
    ensures DueOrder([], q, now) && StillFailing([], failing) == []
  {
  }

  // ----- overdue retests -----

  /** How many entries of the queue were due by a time. */
  ghost function Late(q: multiset<Retest>, t: int): nat
    decreases |q|
  {
    if q == multiset{} then 0
    else
      var e :| e in q;
      (if e.time <= t then 1 else 0) + Late(q - multiset{e}, t)
  }

  function LateIn(s: seq<Retest>, t: int): nat {
    if s == [] then 0 else LateIn(s[..|s| - 1], t) + (if s[|s| - 1].time <= t then 1 else 0)
  }

  lemma LateFirst(q: multiset<Retest>, t: int) returns (k: Retest)
    requires q != multiset{}
    ensures k in q && Late(q, t) == (if k.time <= t then 1 else 0) + Late(q - multiset{k}, t)
  {
    k :| k in q && Late(q, t) == (if k.time <= t then 1 else 0) + Late(q - multiset{k}, t);
  }

  /** Whichever entry is taken first. */
  lemma {:induction false} LateTake(q: multiset<Retest>, e: Retest, t: int)
    requires e in q
    ensures Late(q, t) == (if e.time <= t then 1 else 0) + Late(q - multiset{e}, t)
    decreases |q|
  {
    hide Late;
    var k := LateFirst(q, t);
    if k != e {
      LateTake(q - multiset{k}, e, t);
      LateTake(q - multiset{e}, k, t);
      assert q - multiset{k} - multiset{e} == q - multiset{e} - multiset{k};
    }
  }

  lemma {:induction false} LateAdd(q: multiset<Retest>, s: seq<Retest>, t: int)
    ensures Late(q + multiset(s), t) == Late(q, t) + LateIn(s, t)
    decreases |s|
  {
    if s == [] {
      assert q + multiset(s) == q;
    } else {
      hide Late;
      var front, e := s[..|s| - 1], s[|s| - 1];
      assert s == front + [e];
      LateTake(q + multiset(s), e, t);
      assert q + multiset(s) - multiset{e} == q + multiset(front);
      LateAdd(q, front, t);
    }
  }

  lemma {:induction false} NoneLate(q: multiset<Retest>, t: int)
    requires forall e :: e in q ==> e.time > t
    ensures Late(q, t) == 0
    decreases |q|
  {
    if q != multiset{} {
      var k := LateFirst(q, t);
      NoneLate(q - multiset{k}, t);
    }
  }

  lemma {:induction false} AllLate(s: seq<Retest>, t: int)
    ensures (forall i :: 0 <= i < |s| ==> s[i].time <= t) ==> LateIn(s, t) == |s|
    ensures (forall i :: 0 <= i < |s| ==> s[i].time > t) ==> LateIn(s, t) == 0
    decreases |s|
  {
    if s != [] {
      AllLate(s[..|s| - 1], t);
    }
  }

  lemma {:induction false} FewerFailing(taken: seq<Retest>, failing: set<RouterId>)
    ensures |StillFailing(taken, failing)| <= |taken|
    decreases |taken|
  {
    if taken != [] {
      FewerFailing(taken[..|taken| - 1], failing);
    }
  }

  lemma {:induction false} RequeuedLater(tests: seq<Test>, registered: set<RouterId>, usable: set<RouterId>, now: int,
                                         noise: nat -> int)
    ensures forall i :: 0 <= i < |Requeued(tests, registered, usable, now, noise)| ==>
                          Requeued(tests, registered, usable, now, noise)[i].time >= now
    decreases |tests|
  {
    if tests != [] {
      RequeuedLater(tests[..|tests| - 1], registered, usable, now, noise);
    }
  }

  /** Of the entries due by a time past, a tick takes three, or all that are left. */
  lemma OverdueShrink(q: multiset<Retest>, taken: seq<Retest>, failing: set<RouterId>, added: seq<Retest>, now: int, t: int)
    requires t < now && multiset(taken) <= q && DueOrder(taken, q - multiset(taken), now)
    requires |StillFailing(taken, failing)| < MAX_RETESTS_PER_TICK ==>
               forall e :: e in q - multiset(taken) ==> e.time > now
    requires forall i :: 0 <= i < |added| ==> added[i].time >= now
    ensures var after := Late(q - multiset(taken) + multiset(added), t);
            after == 0 || after + MAX_RETESTS_PER_TICK <= Late(q, t)
  {
    hide Late, StillFailing;
    var left := q - multiset(taken);
    LateAdd(left, added, t);
    AllLate(added, t);
    assert left + multiset(taken) == q;
    LateAdd(left, taken, t);
    FewerFailing(taken, failing);
    if |StillFailing(taken, failing)| < MAX_RETESTS_PER_TICK {
      NoneLate(left, t);
    } else if e :| e in left && e.time <= t {
      AllLate(taken, t);
    } else {
      NoneLate(left, t);
    }
  }

  // ----- every run -----

  /** What can happen: a tick, or the answer to one of the pings in flight. */
  datatype Event =
    | TickEvent(now: int, order: seq<RouterId>, registered: set<RouterId>, usable: set<RouterId>)
    | PingEvent(test: Test, success: bool, now: int, noise: int)

  function Ticks(events: seq<Event>): nat {
    if events == [] then 0 else Ticks(events[..|events| - 1]) + (if events[|events| - 1].TickEvent? then 1 else 0)
  }

  /**
   Any sequence of events, from a scheduler that has lost no one, loses no one; and of the
   retests due before it began, each tick takes three, until none is left.
   */
  method Replay(r: ReachabilityTesting, events: seq<Event>, noise: nat -> int, ghost t: int)
    requires r.Valid() && forall i :: 0 <= i < |events| ==> t < events[i].now
    modifies r
    ensures r.Valid()
    ensures Late(r.failingQueue, t) == 0 ||
            Late(r.failingQueue, t) + MAX_RETESTS_PER_TICK * Ticks(events) <= old(Late(r.failingQueue, t))
  {
    hide NoneLost, Late, DueOrder, StillFailing, Requeued, Pinged, Tested;
    assert events[..0] == [];
    for i := 0 to |events|
      invariant r.Valid()
      invariant Late(r.failingQueue, t) == 0 ||
                Late(r.failingQueue, t) + MAX_RETESTS_PER_TICK * Ticks(events[..i]) <= old(Late(r.failingQueue, t))
    {
      assert events[..i + 1][..i] == events[..i];
      Happen(r, events[i], noise, t);
    }
    assert events[..|events|] == events;
  }

  method Happen(r: ReachabilityTesting, event: Event, noise: nat -> int, ghost t: int)
    requires r.Valid() && t < event.now
    modifies r
    ensures r.Valid()
    ensures Late(r.failingQueue, t) == 0 ||
            Late(r.failingQueue, t) + (if event.TickEvent? then MAX_RETESTS_PER_TICK else 0) <= old(Late(r.failingQueue, t))
  {
    hide NoneLost, Late, DueOrder, StillFailing, Requeued, Pinged, Tested;
    ghost var q, failing := r.failingQueue, r.failing;
    match event
    case TickEvent(now, order, registered, usable) =>
      ghost var taken, random, tests;
      taken, random, tests := r.Tick(now, order, registered, usable, noise);
      RequeuedLater(tests, registered, usable, now, noise);
      OverdueShrink(q, taken, failing, Requeued(tests, registered, usable, now, noise), now, t);
    case PingEvent(test, success, now, n) =>
      if test in r.inFlight {
        r.PingDone(test, success, now, n);
        ghost var e := NextRetest(test.pk, test.prevFails, now, n);
        LateAdd(q, [e], t);
        AllLate([e], t);
        assert multiset([e]) == multiset{e};
      }
  }
}
