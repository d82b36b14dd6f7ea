/**
 Accepting RouterIDs by majority: `handle_fetched_router_ids` of src/nodedb.cpp.
 */
module RidConsensus {
  import opened RouterIds
  import opened Sequences

  /** What each source asked has affirmed; a source that failed affirms nothing. */
  type Answers = map<RouterId, set<RouterId>>

  function Affirming(results: Answers, rid: RouterId): set<RouterId> {
    set source | source in results && rid in results[source]
  }

  function Needed(results: Answers): nat {
    |results| / 2 + 1
  }

  /** A strict majority of the sources asked, one of our own inbound sources among them. */
  predicate Accepted(results: Answers, inbound: set<RouterId>, rid: RouterId) {
    |Affirming(results, rid)| >= Needed(results) && Affirming(results, rid) * inbound != {}
  }

  function AcceptedIds(results: Answers, inbound: set<RouterId>): set<RouterId> {
    set source, rid | source in results && rid in results[source] && Accepted(results, inbound, rid) :: rid
  }

  lemma AffirmingBound(results: Answers, rid: RouterId)
    ensures Affirming(results, rid) <= results.Keys && |Affirming(results, rid)| <= |results|
  {
    assert |results.Keys| == |results|;
    SubsetCard(Affirming(results, rid), results.Keys);
  }

  lemma AcceptedIdsMember(results: Answers, inbound: set<RouterId>, rid: RouterId)
    ensures rid in AcceptedIds(results, inbound) <==> Accepted(results, inbound, rid)
  {
  }

  // ----- what a majority rules out -----

  /** Two majorities of the same sources meet. */
  lemma MajoritiesMeet(all: set<RouterId>, a: set<RouterId>, b: set<RouterId>)
    requires a <= all && b <= all && 2 * |a| > |all| && 2 * |b| > |all|
    ensures a * b != {}
  {
    if a * b == {} {
      assert |a + b| == |a| + |b|;
      SubsetCard(a + b, all);
    }
  }

  /** Any two accepted RouterIDs have a source that affirmed both. */
  lemma AcceptedShareSource(results: Answers, inbound: set<RouterId>, x: RouterId, y: RouterId)
    requires Accepted(results, inbound, x) && Accepted(results, inbound, y)
    ensures exists source :: source in results && x in results[source] && y in results[source]
  {
    AffirmingBound(results, x);
    AffirmingBound(results, y);
    assert |results.Keys| == |results|;
    MajoritiesMeet(results.Keys, Affirming(results, x), Affirming(results, y));
    var source :| source in Affirming(results, x) * Affirming(results, y);
  }

  /** Sources that are no more than half of those asked never get an ID accepted by themselves. */
  lemma MinorityPowerless(results: Answers, inbound: set<RouterId>, minority: set<RouterId>, rid: RouterId)
    requires minority <= results.Keys && 2 * |minority| <= |results|
    requires Affirming(results, rid) <= minority
    ensures !Accepted(results, inbound, rid)
  {
    SubsetCard(Affirming(results, rid), minority);
  }

  /** Where every source is inbound, asking for an inbound one changes nothing. */
  lemma AllInboundCostsNothing(results: Answers, inbound: set<RouterId>, rid: RouterId)
    requires results.Keys <= inbound
    ensures Accepted(results, inbound, rid) <==> |Affirming(results, rid)| >= Needed(results)
  {
    var a := Affirming(results, rid);
    if |a| >= Needed(results) {
      assert a != {};
      var source :| source in a;
      assert source in a * inbound;
    }
  }

  /**
   When a strict majority of the sources, an inbound one among them, report the same list, that
   list is what is accepted, whatever the others say.
   */
  lemma MajorityDecides(results: Answers, inbound: set<RouterId>, agreeing: set<RouterId>, ids: set<RouterId>)
    requires agreeing <= results.Keys && 2 * |agreeing| > |results| && agreeing * inbound != {}
    requires forall source :: source in agreeing ==> results[source] == ids
    ensures AcceptedIds(results, inbound) == ids
  {
    forall rid
      ensures rid in AcceptedIds(results, inbound) <==> rid in ids
    {
      AcceptedIdsMember(results, inbound, rid);
      var a := Affirming(results, rid);
      AffirmingBound(results, rid);
      if rid in ids {
        assert agreeing <= a;
        SubsetCard(agreeing, a);
        var source :| source in agreeing * inbound;
        assert source in a * inbound;
      } else {
        assert |results.Keys| == |results|;
        if 2 * |a| > |results| {
          MajoritiesMeet(results.Keys, agreeing, a);
        }
      }
    }
  }

  /** The accepted IDs on the lists of some of the sources. */
  ghost function AcceptedAmong(results: Answers, inbound: set<RouterId>, sources: set<RouterId>): set<RouterId> {
    set source, rid | source in sources && source in results && rid in results[source] && Accepted(results, inbound, rid) :: rid
  }

  lemma AcceptedAmongNext(results: Answers, inbound: set<RouterId>, sources: set<RouterId>, next: RouterId)
    requires next in results
    ensures AcceptedAmong(results, inbound, sources + {next})
            == AcceptedAmong(results, inbound, sources) + AcceptedAmong(results, inbound, {next})
    ensures AcceptedAmong(results, inbound, {next}) == set rid | rid in results[next] && Accepted(results, inbound, rid)
    ensures AcceptedAmong(results, inbound, results.Keys) == AcceptedIds(results, inbound)
  {
  }

  /** The known RouterIDs of a client. */
  class RidStore {
    var knownRids: set<RouterId>

    constructor (known: set<RouterId>)
      ensures knownRids == known
    {
      knownRids := known;
    }

    /**
     Applies a completed round: the accepted IDs replace the known ones, unless there are none,
     which leaves them alone.
     */
    method HandleFetchedRouterIds(results: Answers, inboundSources: set<RouterId>) returns (conclusive: bool)
      modifies this
      ensures conclusive <==> AcceptedIds(results, inboundSources) != {}
      ensures knownRids == if conclusive then AcceptedIds(results, inboundSources) else old(knownRids)
    {
      var accepted := ComputeAccepted(results, inboundSources);
      if accepted == {} {
        return false;
      }
      knownRids := accepted;
      return true;
    }
  }

  /** The nested loops over sources and over what each affirms. */
  method ComputeAccepted(results: Answers, inboundSources: set<RouterId>) returns (accepted: set<RouterId>)
    ensures accepted == AcceptedIds(results, inboundSources)
    ensures forall rid :: rid in accepted <==> Accepted(results, inboundSources, rid)
  {
    hide Accepted;
    accepted := {};
    var sources := results.Keys;
    while sources != {}
      invariant sources <= results.Keys
      invariant accepted == AcceptedAmong(results, inboundSources, results.Keys - sources)
      decreases |sources|
    {
      var source :| source in sources;
      AcceptedAmongNext(results, inboundSources, results.Keys - sources, source);
      assert results.Keys - (sources - {source}) == (results.Keys - sources) + {source};
      accepted := AcceptFrom(results, inboundSources, results[source], accepted);
      sources := sources - {source};
    }
    assert results.Keys - {} == results.Keys;
    forall rid
      ensures rid in accepted <==> Accepted(results, inboundSources, rid)
    {
      AcceptedIdsMember(results, inboundSources, rid);
    }
  }

  /** The pass over one source's list. */
  method AcceptFrom(results: Answers, inboundSources: set<RouterId>, rids: set<RouterId>, start: set<RouterId>)
    returns (accepted: set<RouterId>)
    requires forall rid :: rid in start ==> Accepted(results, inboundSources, rid)
    ensures forall rid :: rid in accepted <==>
              rid in start || (rid in rids && Accepted(results, inboundSources, rid))
  {
    hide Accepted;
    accepted := start;
    var todo := rids;
    while todo != {}
      invariant todo <= rids
      invariant forall rid :: rid in accepted <==>
                  rid in start || (rid in rids - todo && Accepted(results, inboundSources, rid))
      decreases |todo|
    {
      var rid :| rid in todo;
      todo := todo - {rid};
      if rid in accepted {
        continue;
      }
      var ok := CountAgreement(results, inboundSources, rid);
      if ok {
        accepted := accepted + {rid};
      }
    }
  }

  /** The innermost loop: how many sources affirm the ID, and whether an inbound one does. */
  method CountAgreement(results: Answers, inboundSources: set<RouterId>, rid: RouterId) returns (ok: bool)
    ensures ok <==> Accepted(results, inboundSources, rid)
  {
    hide Affirming;
    var agree, inboundAgrees := 0, false;
    var others := results.Keys;
    ghost var a := Affirming(results, rid);
    ghost var seen: set<RouterId> := {};
    AffirmingMeans(results, rid);
    while others != {}
      invariant others <= results.Keys && seen == a - others
      invariant agree == |seen|
      invariant inboundAgrees <==> seen * inboundSources != {}
      decreases |others|
    {
      var other :| other in others;
      OneMoreSeen(a, others, other, inboundSources);
      others := others - {other};
      seen := a - others;
      if rid in results[other] {
        agree := agree + 1;
        if other in inboundSources {
          inboundAgrees := true;
        }
      }
    }
    assert seen == a;
    ok := agree >= |results| / 2 + 1 && inboundAgrees;
  }

  lemma AffirmingMeans(results: Answers, rid: RouterId)
    ensures Affirming(results, rid) - results.Keys == {}
    ensures forall s :: s in results ==> (s in Affirming(results, rid) <==> rid in results[s])
  {
  }

  lemma OneMoreSeen(a: set<RouterId>, others: set<RouterId>, other: RouterId, inbound: set<RouterId>)
    requires other in others
    ensures a - (others - {other}) == if other in a then (a - others) + {other} else a - others
    ensures other in a ==> |a - (others - {other})| == |a - others| + 1
    ensures other in a ==>
              ((a - (others - {other})) * inbound != {} <==> (a - others) * inbound != {} || other in inbound)
  {
  }
}
