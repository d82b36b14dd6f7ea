/**
 Fetching RouterIDs: `fetch_rids` of src/nodedb.cpp schedules itself through timers and the
 callbacks of its requests. As a state machine over those steps, the chain of rounds never
 forks and never breaks until a call finds the router stopped.
 */
module FetchChain {
  import opened WireBytes
  import opened RouterIds
  import opened RidConsensus
  import opened Sequences

  const RID_SOURCE_COUNT := 5

  // ----- choosing the sources -----

  /** Path terminals added to the sources, each once, until there are enough. */
  function AddSources(paths: seq<RouterId>, have: seq<RouterId>): (s: seq<RouterId>)
    requires |have| <= RID_SOURCE_COUNT && Distinct(have)
    ensures |s| <= RID_SOURCE_COUNT && Distinct(s) && have <= s
    ensures forall x :: x in s ==> x in have || x in paths
    decreases |paths|
  {
    if paths == [] || |have| >= RID_SOURCE_COUNT then have
    else if paths[0] in have then AddSources(paths[1..], have)
    else AddSources(paths[1..], have + [paths[0]])
  }

  /** The first five distinct ends of a list of paths: each has fewer than five before it. */
  function FirstEnds(paths: seq<RouterId>): set<RouterId> {
    set i | 0 <= i < |paths| && |Elems(paths[..i])| < 5 :: paths[i]
  }

  /** The ends added to those there are. */
  function MoreEnds(paths: seq<RouterId>, have: set<RouterId>): set<RouterId> {
    set i | 0 <= i < |paths| && |have + Elems(paths[..i])| < 5 :: paths[i]
  }

  lemma {:induction false} AddSourcesMeans(paths: seq<RouterId>, have: seq<RouterId>)
    requires |have| <= RID_SOURCE_COUNT && Distinct(have)
    ensures Elems(AddSources(paths, have)) == Elems(have) + MoreEnds(paths, Elems(have))
    decreases |paths|
  {
    hide MoreEnds, Elems, Distinct, AddSources;
    DistinctCount(have);
    if paths == [] || |have| >= RID_SOURCE_COUNT {
      EnoughSources(paths, have);
      FullAddsNone(paths, Elems(have));
    } else {
      AddSourcesStep(paths, have);
      MoreEndsCons(paths, Elems(have));
      ElemsIn(have, paths[0]);
      if paths[0] in have {
        assert Elems(have) + {paths[0]} == Elems(have);
        AddSourcesMeans(paths[1..], have);
      } else {
        ElemsPush(have, paths[0]);
        AddSourcesMeans(paths[1..], have + [paths[0]]);
      }
    }
  }

  lemma EnoughSources(paths: seq<RouterId>, have: seq<RouterId>)
    requires |have| <= RID_SOURCE_COUNT && Distinct(have) && (paths == [] || |have| >= RID_SOURCE_COUNT)
    ensures AddSources(paths, have) == have
  {
  }

  lemma AddSourcesStep(paths: seq<RouterId>, have: seq<RouterId>)
    requires |have| < RID_SOURCE_COUNT && Distinct(have) && paths != []
    ensures paths[0] in have ==> AddSources(paths, have) == AddSources(paths[1..], have)
    ensures paths[0] !in have ==>
              Distinct(have + [paths[0]]) && AddSources(paths, have) == AddSources(paths[1..], have + [paths[0]])
  {
  }

  lemma FullAddsNone(paths: seq<RouterId>, have: set<RouterId>)
    requires paths == [] || |have| >= 5
    ensures MoreEnds(paths, have) == {}
  {
    forall i | 0 <= i < |paths|
      ensures |have + Elems(paths[..i])| >= 5
    {
      SubsetCard(have, have + Elems(paths[..i]));
    }
  }

  lemma MoreEndsCons(paths: seq<RouterId>, have: set<RouterId>)
    requires paths != [] && |have| < 5
    ensures MoreEnds(paths, have) == {paths[0]} + MoreEnds(paths[1..], have + {paths[0]})
  {
    hide Elems;
    var rest, more := paths[1..], have + {paths[0]};
    forall i | 0 <= i < |rest|
      ensures more + Elems(rest[..i]) == have + Elems(paths[..i + 1]) && rest[i] == paths[i + 1]
    {
      ElemsCons(paths, i);
    }
    assert have + Elems(paths[..0]) == have by {
      NoElems(paths);
    }
    forall x | x in MoreEnds(paths, have)
      ensures x in {paths[0]} + MoreEnds(rest, more)
    {
      var i :| 0 <= i < |paths| && |have + Elems(paths[..i])| < 5 && paths[i] == x;
      if i > 0 {
        assert rest[i - 1] == x && |more + Elems(rest[..i - 1])| < 5;
      }
    }
    forall x | x in MoreEnds(rest, more)
      ensures x in MoreEnds(paths, have)
    {
      var i :| 0 <= i < |rest| && |more + Elems(rest[..i])| < 5 && rest[i] == x;
      assert paths[i + 1] == x && |have + Elems(paths[..i + 1])| < 5;
    }
  }

  lemma ElemsCons(paths: seq<RouterId>, i: nat)
    requires i < |paths|
    ensures Elems(paths[..i + 1]) == {paths[0]} + Elems(paths[1..][..i])
  {
    assert paths[..i + 1] == [paths[0]] + paths[1..][..i];
  }

  lemma NoElems(paths: seq<RouterId>)
    ensures Elems(paths[..0]) == {}
  {
  }

  /** Adding from two lists is adding from the one after the other. */
  lemma {:induction false} AddSourcesConcat(a: seq<RouterId>, b: seq<RouterId>, have: seq<RouterId>)
    requires |have| <= RID_SOURCE_COUNT && Distinct(have)
    ensures AddSources(b, AddSources(a, have)) == AddSources(a + b, have)
    decreases |a|
  {
    if a == [] {
      assert a + b == b;
    } else if |have| < RID_SOURCE_COUNT {
      assert (a + b)[1..] == a[1..] + b && (a + b)[0] == a[0];
      AddSourcesConcat(a[1..], b, if a[0] in have then have else have + [a[0]]);
    }
  }

  lemma ChosenFrom(paths: seq<RouterId>)
    ensures Elems(AddSources(paths, [])) == FirstEnds(paths)
  {
    hide AddSources;
    AddSourcesMeans(paths, []);
    assert Elems<RouterId>([]) == {};
    forall i | 0 <= i < |paths|
      ensures {} + Elems(paths[..i]) == Elems(paths[..i])
    {
    }
    assert MoreEnds(paths, {}) == FirstEnds(paths);
  }

  /** The inbound sources, and all sources, of a round. */
  lemma ChosenEnds(inboundPaths: seq<RouterId>, outboundPaths: seq<RouterId>)
    ensures Elems(AddSources(inboundPaths, [])) == FirstEnds(inboundPaths)
    ensures Elems(AddSources(outboundPaths, AddSources(inboundPaths, []))) == FirstEnds(inboundPaths + outboundPaths)
  {
    hide AddSources, FirstEnds, Elems;
    ChosenFrom(inboundPaths);
    ChosenFrom(inboundPaths + outboundPaths);
    AddSourcesConcat(inboundPaths, outboundPaths, []);
  }

  /** Short of sources only when there are no more paths to ask. */
  lemma {:induction false} FewSourcesMeansAll(paths: seq<RouterId>, have: seq<RouterId>, x: RouterId)
    requires |have| <= RID_SOURCE_COUNT && Distinct(have)
    requires |AddSources(paths, have)| < RID_SOURCE_COUNT && x in paths
    ensures x in AddSources(paths, have)
    decreases |paths|
  {
    assert |have| < RID_SOURCE_COUNT;
    var next := if paths[0] in have then have else have + [paths[0]];
    assert AddSources(paths, have) == AddSources(paths[1..], next);
    if x == paths[0] {
      assert x in next;
    } else {
      assert x in paths[1..];
      FewSourcesMeansAll(paths[1..], next, x);
    }
  }

  /** The two selection loops of fetch_rids. */
  method SelectSources(inboundPaths: seq<RouterId>, outboundPaths: seq<RouterId>)
    returns (sources: seq<RouterId>, inbound: seq<RouterId>)
    ensures inbound == AddSources(inboundPaths, [])
    ensures sources == if inbound == [] then [] else AddSources(outboundPaths, inbound)
    ensures Elems(inbound) == FirstEnds(inboundPaths)
    ensures inboundPaths != [] ==> Elems(sources) == FirstEnds(inboundPaths + outboundPaths)
  {
    ChosenEnds(inboundPaths, outboundPaths);
    hide FirstEnds;
    inbound := AddFrom(inboundPaths, []);
    if inbound == [] {
      return [], inbound;
    }
    sources := AddFrom(outboundPaths, inbound);
  }

  method AddFrom(paths: seq<RouterId>, have: seq<RouterId>) returns (s: seq<RouterId>)
    requires |have| <= RID_SOURCE_COUNT && Distinct(have)
    ensures s == AddSources(paths, have)
  {
    s := have;
    assert paths[0..] == paths;
    for i := 0 to |paths|
      invariant |s| <= RID_SOURCE_COUNT && Distinct(s)
      invariant AddSources(paths, have) == AddSources(paths[i..], s)
    {
      if |s| >= RID_SOURCE_COUNT {
        return;
      }
      assert paths[i..][0] == paths[i] && paths[i..][1..] == paths[i + 1..];
      if paths[i] !in s {
        s := s + [paths[i]];
      }
    }
  }

  // ----- the machine -----

  /** A round in flight: what has been answered, who has yet to, and how many have. */
  datatype Round = Round(inbound: set<RouterId>, answers: Answers, pending: set<RouterId>, resultCount: nat)

  datatype State = State(
    running: bool,             // the router is neither stopping nor stopped
    timers: nat,               // calls to fetch_rids waiting on a timer
    rounds: map<nat, Round>,   // rounds in flight, by number
    started: nat,              // rounds started so far
    applied: seq<nat>,         // rounds applied, in order
    known: set<RouterId>,      // known_rids
    halted: bool)              // a call has found the router stopped

  /** Whether applying a round returns, or throws before or after the known set was replaced. */
  datatype Apply = Returns | ThrowsBefore | ThrowsAfter

  datatype Event =
    | TimerFires(inboundPaths: seq<RouterId>, outboundPaths: seq<RouterId>)
    | Callback(round: nat, source: RouterId, reply: Option<set<RouterId>>, apply: Apply)
    | RouterStops

  function Init(known: set<RouterId>): State {
    State(true, 1, map[], 0, [], known, false)
  }

  /** Each request's callback fires once: only while it is pending. */
  predicate Enabled(s: State, e: Event) {
    match e
    case TimerFires(_, _) => s.timers > 0
    case Callback(round, source, _, _) => round in s.rounds && source in s.rounds[round].pending
    case RouterStops => true
  }

  function NewRound(inbound: seq<RouterId>, sources: seq<RouterId>): Round {
    Round(Elems(inbound), map x | x in Elems(sources) :: {}, Elems(sources), 0)
  }

  /** fetch_rids, called by its timer. */
  function FetchRids(s: State, inboundPaths: seq<RouterId>, outboundPaths: seq<RouterId>): State
    requires s.timers > 0
  {
    var fired := s.(timers := s.timers - 1);
    var inbound := AddSources(inboundPaths, []);
    if !s.running then fired.(halted := true)
    else if inbound == [] then fired.(timers := s.timers - 1 + 1)
    else
      var round := NewRound(inbound, AddSources(outboundPaths, inbound));
      fired.(rounds := s.rounds[s.started := round], started := s.started + 1)
  }

  /** The same step as the program makes it: select, then ask, or wait, or stop. */
  method FetchOnce(s: State, inboundPaths: seq<RouterId>, outboundPaths: seq<RouterId>) returns (t: State)
    requires s.timers > 0
    ensures t == FetchRids(s, inboundPaths, outboundPaths)
  {
    t := s.(timers := s.timers - 1);
    if !s.running {
      t := t.(halted := true);
      return;
    }
    var sources, inbound := SelectSources(inboundPaths, outboundPaths);
    if inbound == [] {
      t := t.(timers := t.timers + 1);
      return;
    }
    t := t.(rounds := t.rounds[t.started := NewRound(inbound, sources)], started := t.started + 1);
  }

  /** The round once one more answer, or failure, is in. */
  function Answered(r: Round, source: RouterId, reply: Option<set<RouterId>>): Round {
    Round(r.inbound, r.answers[source := if reply.Some? then reply.value else {}], r.pending - {source}, r.resultCount + 1)
  }

  predicate Complete(r: Round) {
    r.resultCount == |r.answers|
  }

  function KnownAfter(known: set<RouterId>, r: Round, apply: Apply): set<RouterId> {
    var accepted := AcceptedIds(r.answers, r.inbound);
    if apply == ThrowsBefore || accepted == {} then known else accepted
  }

  /** The callback of one request; the last of a round applies it and schedules the next. */
  function ResultCallback(s: State, round: nat, source: RouterId, reply: Option<set<RouterId>>, apply: Apply): State
    requires round in s.rounds
  {
    var r := Answered(s.rounds[round], source, reply);
    if Complete(r) then
      s.(rounds := s.rounds - {round}, applied := s.applied + [round],
         known := KnownAfter(s.known, r, apply), timers := s.timers + 1)
    else s.(rounds := s.rounds[round := r])
  }

  function Step(s: State, e: Event): State
    requires Enabled(s, e)
  {
    match e
    case TimerFires(inboundPaths, outboundPaths) => FetchRids(s, inboundPaths, outboundPaths)
    case Callback(round, source, reply, apply) => ResultCallback(s, round, source, reply, apply)
    case RouterStops => s.(running := false)
  }

  ghost predicate CanRun(s: State, es: seq<Event>)
    decreases |es|
  {
    es == [] || (Enabled(s, es[0]) && CanRun(Step(s, es[0]), es[1..]))
  }

  function Run(s: State, es: seq<Event>): State
    requires CanRun(s, es)
    decreases |es|
  {
    if es == [] then s else Run(Step(s, es[0]), es[1..])
  }

  // ----- what every step keeps -----

  /** A round in flight waits for someone, and has counted everyone else. */
  predicate RoundOk(r: Round) {
    && r.pending != {} && r.pending <= r.answers.Keys
    && r.resultCount + |r.pending| == |r.answers| <= RID_SOURCE_COUNT
    && r.inbound != {} && r.inbound <= r.answers.Keys
    && forall source :: source in r.pending ==> r.answers[source] == {}
  }

  ghost predicate RoundsOk(s: State) {
    forall id :: id in s.rounds ==> id < s.started && RoundOk(s.rounds[id])
  }

  /** Every round started is in flight or has been applied, not both, and applied once only. */
  ghost predicate EachOnce(s: State) {
    && (forall id: nat :: id < s.started <==> id in s.rounds || id in s.applied)
    && (forall id :: id in s.applied ==> id !in s.rounds)
    && (forall i, j :: 0 <= i < j < |s.applied| ==> s.applied[i] != s.applied[j])
  }

  /** One timer or one round, never both and never neither, until the chain has halted. */
  ghost predicate OneChain(s: State) {
    && s.timers + |s.rounds| == (if s.halted then 0 else 1)
    && (s.halted ==> !s.running)
  }

  ghost predicate Inv(s: State) {
    RoundsOk(s) && EachOnce(s) && OneChain(s)
  }

  lemma InitInv(known: set<RouterId>)
    ensures Inv(Init(known))
  {
  }

  lemma NewRoundOk(inboundPaths: seq<RouterId>, outboundPaths: seq<RouterId>)
    requires AddSources(inboundPaths, []) != []
    ensures RoundOk(NewRound(AddSources(inboundPaths, []), AddSources(outboundPaths, AddSources(inboundPaths, []))))
  {
    hide AddSources;
    var inbound := AddSources(inboundPaths, []);
    var sources := AddSources(outboundPaths, inbound);
    var r := NewRound(inbound, sources);
    DistinctCount(sources);
    assert r.answers.Keys == Elems(sources);
    assert inbound[0] in Elems(inbound) && sources[0] in Elems(sources);
  }

  lemma AnsweredOk(r: Round, source: RouterId, reply: Option<set<RouterId>>)
    requires RoundOk(r) && source in r.pending
    ensures var a := Answered(r, source, reply);
            && a.answers.Keys == r.answers.Keys && |a.answers| == |r.answers|
            && (Complete(a) <==> r.pending == {source})
            && (!Complete(a) ==> RoundOk(a))
  {
    var a := Answered(r, source, reply);
    assert a.answers.Keys == r.answers.Keys;
    assert |a.answers.Keys| == |a.answers| && |r.answers.Keys| == |r.answers|;
    assert |a.pending| == |r.pending| - 1;
    if a.pending == {} {
      assert r.pending == {source};
    }
  }

  lemma StartKeepsInv(s: State, round: Round)
    requires Inv(s) && s.timers > 0 && s.running && RoundOk(round)
    ensures Inv(s.(timers := s.timers - 1, rounds := s.rounds[s.started := round], started := s.started + 1))
  {
    assert s.rounds == map[];
    var t := s.(timers := s.timers - 1, rounds := map[s.started := round], started := s.started + 1);
    StartKeepsOnce(s, t);
    hide RoundOk, EachOnce;
    assert t.rounds.Keys == {s.started} && |t.rounds| == |t.rounds.Keys|;
  }

  lemma StartKeepsOnce(s: State, t: State)
    requires EachOnce(s) && s.rounds == map[] && t.rounds.Keys == {s.started}
    requires t.applied == s.applied && t.started == s.started + 1
    ensures EachOnce(t)
  {
    assert forall id :: id in t.rounds <==> id == s.started;
    assert forall id :: id in s.applied ==> id < s.started;
  }

  lemma TimerKeepsInv(s: State, inboundPaths: seq<RouterId>, outboundPaths: seq<RouterId>)
    requires Inv(s) && s.timers > 0
    ensures Inv(FetchRids(s, inboundPaths, outboundPaths))
  {
    hide AddSources, RoundOk, NewRound;
    var inbound := AddSources(inboundPaths, []);
    if s.running && inbound != [] {
      hide Inv;
      NewRoundOk(inboundPaths, outboundPaths);
      StartKeepsInv(s, NewRound(inbound, AddSources(outboundPaths, inbound)));
    }
  }

  lemma CallbackKeepsInv(s: State, round: nat, source: RouterId, reply: Option<set<RouterId>>, apply: Apply)
    requires Inv(s) && round in s.rounds && source in s.rounds[round].pending
    ensures Inv(ResultCallback(s, round, source, reply, apply))
  {
    hide RoundOk, KnownAfter, Answered, Complete;
    AnsweredOk(s.rounds[round], source, reply);
    var r := Answered(s.rounds[round], source, reply);
    var t := ResultCallback(s, round, source, reply, apply);
    if Complete(r) {
      assert t.rounds.Keys == s.rounds.Keys - {round};
      assert |t.rounds| == |t.rounds.Keys| && |s.rounds| == |s.rounds.Keys|;
    } else {
      assert t.rounds.Keys == s.rounds.Keys;
      assert |t.rounds| == |t.rounds.Keys| && |s.rounds| == |s.rounds.Keys|;
    }
  }

  lemma StepKeepsInv(s: State, e: Event)
    requires Inv(s) && Enabled(s, e)
    ensures Inv(Step(s, e))
  {
    hide FetchRids, ResultCallback;
    match e {
      case TimerFires(inboundPaths, outboundPaths) => TimerKeepsInv(s, inboundPaths, outboundPaths);
      case Callback(round, source, reply, apply) => CallbackKeepsInv(s, round, source, reply, apply);
      case RouterStops =>
    }
  }

  lemma {:induction false} RunKeepsInv(s: State, es: seq<Event>)
    requires Inv(s) && CanRun(s, es)
    ensures Inv(Run(s, es))
    decreases |es|
  {
    hide Inv, Step, Enabled;
    if es != [] {
      StepKeepsInv(s, es[0]);
      RunKeepsInv(Step(s, es[0]), es[1..]);
    }
  }

  // ----- the results -----

  /**
   After any run from the start: timers and rounds in flight add up to one, or to nothing once a
   call has found the router stopped; and each round started is in flight or was applied exactly
   once.
   */
  lemma SingleChain(known: set<RouterId>, es: seq<Event>)
    requires CanRun(Init(known), es)
    ensures var s := Run(Init(known), es);
            && s.timers + |s.rounds| == (if s.halted then 0 else 1)
            && (forall id: nat :: id < s.started ==> (id in s.rounds <==> id !in s.applied))
            && (forall i, j :: 0 <= i < j < |s.applied| ==> s.applied[i] != s.applied[j])
  {
    InitInv(known);
    RunKeepsInv(Init(known), es);
  }

  // ----- what was answered -----

  /** The last answer a source gave in a round of the run; a failure or no answer names nobody. */
  function ReplyIn(es: seq<Event>, round: nat, source: RouterId): set<RouterId> {
    if es == [] then {}
    else
      var e := es[|es| - 1];
      if e.Callback? && e.round == round && e.source == source then
        (if e.reply.Some? then e.reply.value else {})
      else ReplyIn(es[..|es| - 1], round, source)
  }

  lemma {:induction false} RunSnoc(s: State, es: seq<Event>, e: Event)
    requires CanRun(s, es + [e])
    ensures CanRun(s, es) && Enabled(Run(s, es), e) && Run(s, es + [e]) == Step(Run(s, es), e)
    decreases |es|
  {
    hide Step, Enabled;
    if es == [] {
      assert es + [e] == [e];
      assert [e][1..] == [];
    } else {
      assert (es + [e])[1..] == es[1..] + [e] && (es + [e])[0] == es[0];
      RunSnoc(Step(s, es[0]), es[1..], e);
    }
  }

  /** The answers a round has collected are those of the run, and rounds to come have none. */
  ghost predicate Recorded(s: State, es: seq<Event>) {
    && (forall id, x :: id in s.rounds && x in s.rounds[id].answers ==> s.rounds[id].answers[x] == ReplyIn(es, id, x))
    && (forall id: nat, x: RouterId :: id >= s.started ==> ReplyIn(es, id, x) == {})
  }

  lemma ReplySnoc(es: seq<Event>, e: Event, id: nat, x: RouterId)
    ensures ReplyIn(es + [e], id, x) ==
            if e.Callback? && e.round == id && e.source == x then (if e.reply.Some? then e.reply.value else {})
            else ReplyIn(es, id, x)
  {
    assert (es + [e])[..|es|] == es;
  }

  lemma StepRecords(s: State, es: seq<Event>, e: Event)
    requires RoundsOk(s) && Recorded(s, es) && Enabled(s, e)
    ensures Recorded(Step(s, e), es + [e])
  {
    hide RoundOk, AcceptedIds, AddSources, ReplyIn, Elems;
    var t := Step(s, e);
    forall id: nat, x: RouterId | id >= t.started
      ensures ReplyIn(es + [e], id, x) == {}
    {
      ReplySnoc(es, e, id, x);
    }
    forall id, x | id in t.rounds && x in t.rounds[id].answers
      ensures t.rounds[id].answers[x] == ReplyIn(es + [e], id, x)
    {
      ReplySnoc(es, e, id, x);
      if e.Callback? && e.round == id {
        assert t.rounds[id] == Answered(s.rounds[id], e.source, e.reply);
      }
    }
  }

  lemma {:induction false} RunRecords(known: set<RouterId>, es: seq<Event>)
    requires CanRun(Init(known), es)
    ensures Recorded(Run(Init(known), es), es)
    decreases |es|
  {
    if es != [] {
      hide Recorded, Step, Enabled, RoundsOk, EachOnce, OneChain;
      var front, e := es[..|es| - 1], es[|es| - 1];
      assert es == front + [e];
      RunSnoc(Init(known), front, e);
      RunRecords(known, front);
      InitInv(known);
      RunKeepsInv(Init(known), front);
      StepRecords(Run(Init(known), front), front, e);
    }
  }

  // ----- who was asked -----

  /** The timer events of a run that begin a round: some inbound path, and the router not stopped. */
  function Starts(es: seq<Event>): seq<Event> {
    if es == [] then []
    else
      var front, e := es[..|es| - 1], es[|es| - 1];
      Starts(front) + (if e.TimerFires? && e.inboundPaths != [] && RouterStops !in front then [e] else [])
  }

  lemma {:induction false} StartsAreTimers(es: seq<Event>)
    ensures forall i :: 0 <= i < |Starts(es)| ==> Starts(es)[i].TimerFires?
    decreases |es|
  {
    if es != [] {
      StartsAreTimers(es[..|es| - 1]);
    }
  }

  lemma StartsSnoc(es: seq<Event>, e: Event)
    ensures Starts(es + [e]) ==
            Starts(es) + (if e.TimerFires? && e.inboundPaths != [] && RouterStops !in es then [e] else [])
    ensures RouterStops in es + [e] <==> RouterStops in es || e == RouterStops
  {
    assert (es + [e])[..|es|] == es;
  }

  /** A round asks the first five ends of the paths its timer event brought, inbound ones first. */
  predicate AskedBy(r: Round, b: Event)
    requires b.TimerFires?
  {
    r.inbound == FirstEnds(b.inboundPaths) && r.answers.Keys == FirstEnds(b.inboundPaths + b.outboundPaths)
  }

  ghost predicate Sourced(s: State, es: seq<Event>) {
    && (s.running <==> RouterStops !in es) && s.started == |Starts(es)|
    && (forall i :: 0 <= i < |Starts(es)| ==> Starts(es)[i].TimerFires?)
    && forall id :: id in s.rounds ==> id < |Starts(es)| && AskedBy(s.rounds[id], Starts(es)[id])
  }

  lemma NewRoundAsks(inboundPaths: seq<RouterId>, outboundPaths: seq<RouterId>)
    ensures AddSources(inboundPaths, []) == [] <==> inboundPaths == []
    ensures AskedBy(NewRound(AddSources(inboundPaths, []), AddSources(outboundPaths, AddSources(inboundPaths, []))),
                    TimerFires(inboundPaths, outboundPaths))
  {
    hide FirstEnds;
    ChosenEnds(inboundPaths, outboundPaths);
  }

  lemma StepSources(s: State, es: seq<Event>, e: Event)
    requires RoundsOk(s) && Sourced(s, es) && Enabled(s, e)
    ensures Sourced(Step(s, e), es + [e])
  {
    hide Starts, AddSources, FirstEnds, AcceptedIds, RoundOk, NewRound;
    StartsSnoc(es, e);
    StartsAreTimers(es + [e]);
    match e {
      case TimerFires(inboundPaths, outboundPaths) =>
        NewRoundAsks(inboundPaths, outboundPaths);
      case Callback(round, source, reply, _) =>
        CallbackKeepsSources(s.rounds[round], source, reply);
      case RouterStops =>
    }
  }

  lemma CallbackKeepsSources(r: Round, source: RouterId, reply: Option<set<RouterId>>)
    requires source in r.pending && RoundOk(r)
    ensures Answered(r, source, reply).answers.Keys == r.answers.Keys && Answered(r, source, reply).inbound == r.inbound
  {
  }

  lemma {:induction false} RunSources(known: set<RouterId>, es: seq<Event>)
    requires CanRun(Init(known), es)
    ensures Sourced(Run(Init(known), es), es)
    decreases |es|
  {
    if es != [] {
      hide Sourced, Step, Enabled, RoundsOk, EachOnce, OneChain;
      var front, e := es[..|es| - 1], es[|es| - 1];
      assert es == front + [e];
      RunSnoc(Init(known), front, e);
      RunSources(known, front);
      InitInv(known);
      RunKeepsInv(Init(known), front);
      StepSources(Run(Init(known), front), front, e);
    }
  }

  // ----- what a round makes known -----

  /** The sources asked in a round that named an identifier in the run. */
  function Naming(es: seq<Event>, round: nat, sources: set<RouterId>, x: RouterId): set<RouterId> {
    set source | source in sources && x in ReplyIn(es, round, source)
  }

  /** More than half of the sources named it, and one of the first five inbound ends did. */
  predicate AgreedOn(es: seq<Event>, round: nat, b: Event, x: RouterId)
    requires b.TimerFires?
  {
    && 2 * |Naming(es, round, FirstEnds(b.inboundPaths + b.outboundPaths), x)| > |FirstEnds(b.inboundPaths + b.outboundPaths)|
    && Naming(es, round, FirstEnds(b.inboundPaths), x) != {}
  }

  /**
   A round is applied, and its one successor scheduled, by its last callback and no other. The
   known set then becomes exactly what the answers given in the run agree on, unless they agree on
   nothing or applying throws before it is replaced.
   */
  lemma AppliedAtLastCallback(known: set<RouterId>, es: seq<Event>, e: Event)
    requires CanRun(Init(known), es) && e.Callback? && Enabled(Run(Init(known), es), e)
    ensures e.round < |Starts(es)| && Starts(es)[e.round].TimerFires?
    ensures var s := Run(Init(known), es);
            var t := Step(s, e);
            var b := Starts(es)[e.round];
            if s.rounds[e.round].pending == {e.source}
            then
              && t.applied == s.applied + [e.round] && t.timers == s.timers + 1 && e.round !in t.rounds
              && (if e.apply == ThrowsBefore || (forall x :: !AgreedOn(es + [e], e.round, b, x)) then t.known == s.known
                  else forall x :: x in t.known <==> AgreedOn(es + [e], e.round, b, x))
            else t.applied == s.applied && t.timers == s.timers && t.known == s.known && e.round in t.rounds
  {
    InitInv(known);
    RunKeepsInv(Init(known), es);
    RunRecords(known, es);
    RunSources(known, es);
    var s := Run(Init(known), es);
    RoundFacts(s, es, e.round);
    var b := Starts(es)[e.round];
    hide Run, CanRun, Inv, Recorded, Sourced, AgreedOn, Step, RoundOk;
    LastCallback(s, es, e, b);
  }

  lemma LastCallback(s: State, es: seq<Event>, e: Event, b: Event)
    requires e.Callback? && Enabled(s, e) && b.TimerFires?
    requires RoundOk(s.rounds[e.round]) && AskedBy(s.rounds[e.round], b)
    requires var r := s.rounds[e.round];
             r.pending <= r.answers.Keys && forall y :: y in r.answers ==> r.answers[y] == ReplyIn(es, e.round, y)
    ensures var t := Step(s, e);
            if s.rounds[e.round].pending == {e.source}
            then
              && t.applied == s.applied + [e.round] && t.timers == s.timers + 1 && e.round !in t.rounds
              && (if e.apply == ThrowsBefore || (forall x :: !AgreedOn(es + [e], e.round, b, x)) then t.known == s.known
                  else forall x :: x in t.known <==> AgreedOn(es + [e], e.round, b, x))
            else t.applied == s.applied && t.timers == s.timers && t.known == s.known && e.round in t.rounds
  {
    hide AcceptedIds, Answered, Complete, ReplyIn, RoundOk, AgreedOn, FirstEnds;
    var r := s.rounds[e.round];
    AnsweredOk(r, e.source, e.reply);
    var a := Answered(r, e.source, e.reply);
    forall x
      ensures x in AcceptedIds(a.answers, a.inbound) <==> AgreedOn(es + [e], e.round, b, x)
    {
      AcceptedIsAgreed(r, es, e, b, x);
    }
  }

  /** So whatever newly becomes known was named by one of the first five inbound ends of the round. */
  lemma InboundVouches(known: set<RouterId>, es: seq<Event>, e: Event, x: RouterId)
    requires CanRun(Init(known), es) && e.Callback? && Enabled(Run(Init(known), es), e)
    requires x in Step(Run(Init(known), es), e).known && x !in Run(Init(known), es).known
    ensures e.round < |Starts(es)| && Starts(es)[e.round].TimerFires?
    ensures exists source :: source in FirstEnds(Starts(es)[e.round].inboundPaths) && x in ReplyIn(es + [e], e.round, source)
  {
    hide Run, CanRun, FirstEnds, ReplyIn, Step;
    AppliedAtLastCallback(known, es, e);
    var b := Starts(es)[e.round];
    assert AgreedOn(es + [e], e.round, b, x);
    var source :| source in Naming(es + [e], e.round, FirstEnds(b.inboundPaths), x);
  }

  lemma AcceptedIsAgreed(r: Round, es: seq<Event>, e: Event, b: Event, x: RouterId)
    requires e.Callback? && b.TimerFires? && e.source in r.answers && AskedBy(r, b)
    requires forall y :: y in r.answers ==> r.answers[y] == ReplyIn(es, e.round, y)
    ensures var a := Answered(r, e.source, e.reply);
            x in AcceptedIds(a.answers, a.inbound) <==> AgreedOn(es + [e], e.round, b, x)
  {
    hide ReplyIn, FirstEnds, AcceptedIds;
    var a := Answered(r, e.source, e.reply);
    AcceptedIdsMember(a.answers, a.inbound, x);
    forall y | y in r.answers
      ensures a.answers[y] == ReplyIn(es + [e], e.round, y)
    {
      ReplySnoc(es, e, e.round, y);
    }
    assert a.answers.Keys == r.answers.Keys && |a.answers| == |a.answers.Keys|;
    assert Affirming(a.answers, x) == Naming(es + [e], e.round, r.answers.Keys, x);
    InboundAmong(b);
    var inbound := Naming(es + [e], e.round, r.inbound, x);
    assert inbound == Affirming(a.answers, x) * a.inbound;
  }

  /** The inbound ends are among all the ends. */
  lemma InboundAmong(b: Event)
    requires b.TimerFires?
    ensures FirstEnds(b.inboundPaths) <= FirstEnds(b.inboundPaths + b.outboundPaths)
  {
    var all := b.inboundPaths + b.outboundPaths;
    forall x | x in FirstEnds(b.inboundPaths)
      ensures x in FirstEnds(all)
    {
      var i :| 0 <= i < |b.inboundPaths| && |Elems(b.inboundPaths[..i])| < 5 && b.inboundPaths[i] == x;
      assert all[..i] == b.inboundPaths[..i] && all[i] == x;
    }
  }

  lemma RoundFacts(s: State, es: seq<Event>, id: nat)
    requires Inv(s) && Recorded(s, es) && id in s.rounds
    ensures var r := s.rounds[id];
            RoundOk(r) && r.pending <= r.answers.Keys && forall x :: x in r.answers ==> r.answers[x] == ReplyIn(es, id, x)
  {
    hide EachOnce, OneChain, ReplyIn;
  }

  /** The chain is never stuck: until it halts, a timer or a callback is still to come. */
  lemma NeverStuck(known: set<RouterId>, es: seq<Event>)
    requires CanRun(Init(known), es) && !Run(Init(known), es).halted
    ensures var s := Run(Init(known), es);
            s.timers > 0 || exists id :: id in s.rounds && s.rounds[id].pending != {}
  {
    InitInv(known);
    RunKeepsInv(Init(known), es);
    var s := Run(Init(known), es);
    hide Run, CanRun;
    if s.timers == 0 {
      assert s.rounds.Keys != {};
      var id :| id in s.rounds;
    }
  }

  /** Without a stop the chain does not halt. */
  lemma {:induction false} NoStopNoHalt(s: State, es: seq<Event>)
    requires Inv(s) && CanRun(s, es) && s.running
    requires RouterStops !in es
    ensures Run(s, es).running && !Run(s, es).halted
    decreases |es|
  {
    hide Inv;
    if es == [] {
      HaltedIsStopped(s);
    } else {
      StepKeepsInv(s, es[0]);
      assert es[0] in es;
      NoStopNoHalt(Step(s, es[0]), es[1..]);
    }
  }

  lemma HaltedIsStopped(s: State)
    requires Inv(s) && s.running
    ensures !s.halted
  {
  }
}
