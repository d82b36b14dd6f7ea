/**
 The store of encrypted client contacts (src/contact/contactdb.cpp): newest record per key,
 with tentative insertion, rollback and purging. Purging cannot be seen by lookups.
 */
module ContactStore {
  import opened WireBytes

  type PubKey = Bytes

  /** Milliseconds a contact lives from its signing: path::MAX_LIFETIME_ACCEPTED, 23 minutes. */
  const MAX_LIFETIME_ACCEPTED := 23 * 60 * 1000

  datatype Entry = Entry(record: Bytes, signedAt: int)
  type Storage = map<PubKey, Entry>

  /**
   What put_cc can make of its argument: nothing (no key, nonce or time), or a key and a time,
   and then whether the rest is there and the signature is good.
   */
  datatype Submission =
    | Unreadable
    | Readable(key: PubKey, signedAt: int, record: Bytes, verified: bool)

  datatype PutResult = Stored | Stale | Threw

  // ----- on values -----

  predicate Outdated(storage: Storage, s: Submission)
    requires s.Readable?
  {
    s.key in storage && storage[s.key].signedAt >= s.signedAt
  }

  function PutOutcome(storage: Storage, s: Submission): PutResult {
    if s.Unreadable? then Threw
    else if Outdated(storage, s) then Stale
    else if s.verified then Stored
    else Threw
  }

  function AfterPut(storage: Storage, s: Submission): Storage {
    if PutOutcome(storage, s) == Stored then storage[s.key := Entry(s.record, s.signedAt)] else storage
  }

  function AfterPurge(storage: Storage, now: int): Storage {
    map k | k in storage && now <= storage[k].signedAt + MAX_LIFETIME_ACCEPTED :: storage[k]
  }

  /** A record is visible until its lifetime has passed. */
  function Visible(e: Option<Entry>, now: int): Option<Bytes> {
    if e.Some? && now < e.value.signedAt + MAX_LIFETIME_ACCEPTED then Some(e.value.record) else None
  }

  function Held(storage: Storage, k: PubKey): Option<Entry> {
    if k in storage then Some(storage[k]) else None
  }

  class ContactDb {
    var storage: Storage

    constructor ()
      ensures storage == map[]
    {
      storage := map[];
    }

    /** get_encrypted_cc */
    method GetEncryptedCc(key: PubKey, now: int) returns (r: Option<Bytes>)
      ensures r == Visible(Held(storage, key), now)
      ensures r.Some? <==> key in storage && now < storage[key].signedAt + 1_380_000
      ensures r.Some? ==> r.value == storage[key].record
    {
      if key !in storage {
        return None;
      }
      var e := storage[key];
      if now >= e.signedAt + MAX_LIFETIME_ACCEPTED {
        return None;
      }
      return Some(e.record);
    }

    /**
     put_cc: a stub is inserted before the signature is looked at, and filled in or taken out
     again. Whatever happens, only a verified newer record changes the store.
     */
    method PutCc(s: Submission) returns (r: PutResult)
      modifies this
      ensures r == PutOutcome(old(storage), s) && storage == AfterPut(old(storage), s)
      ensures r != Stored ==> storage == old(storage)
    {
      if s.Unreadable? {
        return Threw;
      }
      var inserted := s.key !in storage;
      if inserted {
        storage := storage[s.key := Entry([], 0)];
      }
      if !inserted && storage[s.key].signedAt >= s.signedAt {
        return Stale;
      }
      if !s.verified {
        if inserted {
          storage := storage - {s.key};
          assert storage == old(storage);
        }
        return Threw;
      }
      storage := storage[s.key := Entry(s.record, s.signedAt)];
      return Stored;
    }

    /** purge_ccs: erases in place what has outlived its lifetime. */
    method PurgeCcs(now: int, routerRunning: bool)
      modifies this
      ensures storage == if routerRunning then AfterPurge(old(storage), now) else old(storage)
      ensures routerRunning ==>
                forall k :: k in storage <==> k in old(storage) && now <= old(storage)[k].signedAt + 1_380_000
    {
      if !routerRunning {
        return;
      }
      ghost var before := storage;
      var todo := storage.Keys;
      while todo != {}
        invariant todo <= storage.Keys <= before.Keys
        invariant forall k :: k in storage ==> storage[k] == before[k]
        invariant forall k :: k in before ==>
                    (k in storage <==> k in todo || now <= before[k].signedAt + MAX_LIFETIME_ACCEPTED)
        decreases |todo|
      {
        var k :| k in todo;
        todo := todo - {k};
        if now > storage[k].signedAt + MAX_LIFETIME_ACCEPTED {
          storage := storage - {k};
        }
      }
      assert storage == AfterPurge(before, now);
    }
  }

  // ----- runs -----

  datatype Event = Put(s: Submission) | Purge(now: int)

  function Step(storage: Storage, e: Event): Storage {
    match e
    case Put(s) => AfterPut(storage, s)
    case Purge(now) => AfterPurge(storage, now)
  }

  function Run(es: seq<Event>): Storage {
    if es == [] then map[] else Step(Run(es[..|es| - 1]), es[|es| - 1])
  }

  /** The newest verified record submitted for a key, the first of them if several are as new. */
  function Newest(es: seq<Event>, k: PubKey): Option<Entry> {
    if es == [] then None
    else
      var before, e := Newest(es[..|es| - 1], k), es[|es| - 1];
      if e.Put? && e.s.Readable? && e.s.key == k && e.s.verified &&
         (before.None? || before.value.signedAt < e.s.signedAt)
      then Some(Entry(e.s.record, e.s.signedAt))
      else before
  }

  /** Every purge of the run happened no later than `now`. */
  ghost predicate PurgedBy(es: seq<Event>, now: int) {
    forall i :: 0 <= i < |es| && es[i].Purge? ==> es[i].now <= now
  }

  /**
   How the store may differ from one never purged: only on a key whose newest record has
   already outlived its lifetime, and then only by holding nothing newer.
   */
  predicate Agrees(held: Option<Entry>, newest: Option<Entry>, now: int) {
    || held == newest
    || (newest.Some? && now > newest.value.signedAt + MAX_LIFETIME_ACCEPTED
        && (held.Some? ==> held.value.signedAt <= newest.value.signedAt))
  }

  lemma {:induction false} StoreAgrees(es: seq<Event>, k: PubKey, now: int)
    requires PurgedBy(es, now)
    ensures Agrees(Held(Run(es), k), Newest(es, k), now)
    decreases |es|
  {
    if es != [] {
      var front, e := es[..|es| - 1], es[|es| - 1];
      assert PurgedBy(front, now) by {
        forall i | 0 <= i < |front| && front[i].Purge?
          ensures front[i].now <= now
        {
          assert front[i] == es[i];
        }
      }
      StoreAgrees(front, k, now);
    }
  }

  /**
   Purging is unobservable: after any run, a lookup made no earlier than the purges in it gives
   the newest verified record for its key while that is alive, as a store never purged would.
   */
  lemma PurgingUnobservable(es: seq<Event>, k: PubKey, now: int)
    requires PurgedBy(es, now)
    ensures Visible(Held(Run(es), k), now) == Visible(Newest(es, k), now)
  {
    hide Run, Newest;
    StoreAgrees(es, k, now);
  }

  /** The i-th event put a verified record, and no other verified one for the key supersedes it. */
  ghost predicate Newer(es: seq<Event>, i: nat, j: nat) {
    && i < |es| && j < |es| && es[i].Put? && es[i].s.Readable?
    && es[j].Put? && es[j].s.Readable? && es[j].s.verified && es[j].s.key == es[i].s.key
    && (es[j].s.signedAt > es[i].s.signedAt || (j < i && es[j].s.signedAt == es[i].s.signedAt))
  }

  lemma {:induction false} NewestIs(es: seq<Event>, i: nat)
    requires i < |es| && es[i].Put? && es[i].s.Readable? && es[i].s.verified
    requires forall j: nat :: j < |es| ==> !Newer(es, i, j)
    ensures Newest(es, es[i].s.key) == Some(Entry(es[i].s.record, es[i].s.signedAt))
    decreases |es|
  {
    var n := |es| - 1;
    var front, s := es[..n], es[i].s;
    if i == n {
      NewestBelow(front, es, i);
    } else {
      forall j: nat | j < |front|
        ensures !Newer(front, i, j)
      {
        assert !Newer(es, i, j);
      }
      NewestIs(front, i);
      assert !Newer(es, i, n);
    }
  }

  lemma {:induction false} NewestBelow(front: seq<Event>, es: seq<Event>, i: nat)
    requires |front| <= i < |es| && front == es[..|front|] && es[i].Put? && es[i].s.Readable?
    requires forall j: nat :: j < |es| ==> !Newer(es, i, j)
    ensures var older := Newest(front, es[i].s.key); older.Some? ==> older.value.signedAt < es[i].s.signedAt
    decreases |front|
  {
    if front != [] {
      NewestBelow(front[..|front| - 1], es, i);
      assert !Newer(es, i, |front| - 1);
    }
  }

  /** A verified record that none supersedes is what a lookup returns, until 23 minutes after its signing. */
  lemma LiveRecordReturned(es: seq<Event>, i: nat, now: int)
    requires i < |es| && es[i].Put? && es[i].s.Readable? && es[i].s.verified && PurgedBy(es, now)
    requires forall j: nat :: j < |es| ==> !Newer(es, i, j)
    ensures Visible(Held(Run(es), es[i].s.key), now) ==
            if now < es[i].s.signedAt + 1_380_000 then Some(es[i].s.record) else None
  {
    hide Run, Newest, Newer;
    NewestIs(es, i);
    PurgingUnobservable(es, es[i].s.key, now);
  }

  lemma {:induction false} NewestOnlyGrows(es: seq<Event>, more: seq<Event>, k: PubKey)
    requires Newest(es, k).Some?
    ensures Newest(es + more, k).Some?
    ensures Newest(es + more, k).value.signedAt >= Newest(es, k).value.signedAt
    decreases |more|
  {
    if more == [] {
      assert es + more == es;
    } else {
      NewestOnlyGrows(es, more[..|more| - 1], k);
      assert (es + more)[..|es + more| - 1] == es + more[..|more| - 1];
    }
  }

  /** The signing time a lookup shows never goes back, whatever happens between two lookups. */
  lemma VisibleNeverOlder(es: seq<Event>, more: seq<Event>, k: PubKey, now: int, later: int)
    requires PurgedBy(es, now) && PurgedBy(es + more, later)
    requires Visible(Held(Run(es), k), now).Some? && Visible(Held(Run(es + more), k), later).Some?
    ensures Held(Run(es), k).value.signedAt <= Held(Run(es + more), k).value.signedAt
  {
    hide Run, Newest;
    StoreAgrees(es, k, now);
    StoreAgrees(es + more, k, later);
    NewestOnlyGrows(es, more, k);
  }

  /** The answer of a store never purged. */
  function IdealOutcome(es: seq<Event>, s: Submission): PutResult {
    if s.Unreadable? then Threw
    else if Newest(es, s.key).Some? && Newest(es, s.key).value.signedAt >= s.signedAt then Stale
    else if s.verified then Stored
    else Threw
  }

  const MAX_FUTURE := 10 * 60 * 1000

  /** The submissions that the handler of publish requests passes on to put_cc. */
  predicate LetThrough(s: Submission, now: int) {
    s.Readable? && now - MAX_LIFETIME_ACCEPTED <= s.signedAt <= now + MAX_FUTURE
  }

  /**
   Purging does not change the answer to any submission the handler lets through, whatever was
   submitted and purged before.
   */
  lemma PurgingUnanswered(es: seq<Event>, s: Submission, now: int)
    requires PurgedBy(es, now) && LetThrough(s, now)
    ensures PutOutcome(Run(es), s) == IdealOutcome(es, s)
  {
    hide Run, Newest;
    StoreAgrees(es, s.key, now);
  }

  lemma SomeTime(es: seq<Event>) returns (now: int)
    ensures PurgedBy(es, now)
  {
    if es == [] {
      now := 0;
    } else {
      var front, e := es[..|es| - 1], es[|es| - 1];
      var before := SomeTime(front);
      now := if e.Purge? && e.now > before then e.now else before;
      assert forall i :: 0 <= i < |front| ==> front[i] == es[i];
    }
  }

  /**
   For put_cc alone: its answer differs exactly when a store never purged would refuse the
   submission as stale and this one holds nothing as new.
   */
  lemma AnswerDiffers(es: seq<Event>, s: Submission)
    ensures PutOutcome(Run(es), s) != IdealOutcome(es, s) <==>
              IdealOutcome(es, s) == Stale && (s.key !in Run(es) || Run(es)[s.key].signedAt < s.signedAt)
  {
    hide Run, Newest;
    if s.Readable? {
      var now := SomeTime(es);
      StoreAgrees(es, s.key, now);
    }
  }

  /** Without the handler's guard the same record could be accepted twice, once purged in between. */
  lemma PurgedRecordAcceptedAgain()
    ensures var s := Readable([1], 0, [7], true);
            var es := [Put(s), Purge(MAX_LIFETIME_ACCEPTED + 1)];
            && Newest(es, [1]) == Some(Entry([7], 0))
            && PutOutcome(Run([]), s) == Stored && PutOutcome(Run(es), s) == Stored
            && IdealOutcome(es, s) == Stale && !LetThrough(s, MAX_LIFETIME_ACCEPTED + 1)
  {
    var s := Readable([1], 0, [7], true);
    var es := [Put(s), Purge(MAX_LIFETIME_ACCEPTED + 1)];
    assert es[..1] == [Put(s)] && [Put(s)][..0] == [];
    assert Newest([Put(s)], [1]) == Some(Entry([7], 0));
    assert Run([Put(s)]) == map[[1] := Entry([7], 0)];
    assert Run(es) == map[];
  }
}
