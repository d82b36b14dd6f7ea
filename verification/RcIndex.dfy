/**
 The relay-contact store of src/nodedb.cpp and the XOR bucket hashes kept beside it, by which
 two nodes find out cheaply which parts of their stores differ.
 */
module RcIndex {
  import opened WireBytes
  import opened RouterIds

  /** `identity` is what the content hash covers: everything but the timestamp and signature. */
  datatype RelayContact = RelayContact(id: RouterId, timestamp: int, identity: Bytes)

  const MIN_GOSSIP_RC_AGE := 60
  const OUTDATED_AGE := 12 * 3600

  type Contacts = map<RouterId, RelayContact>
  type Hashes = map<RouterId, bv64>

  // ----- the XOR of a set of hashes -----

  function Xor(a: bv64, b: bv64): bv64 {
    a ^ b
  }

  lemma XorSwap(a: bv64, b: bv64, c: bv64)
    ensures Xor(a, Xor(b, c)) == Xor(b, Xor(a, c))
  {
  }

  lemma XorUndo(a: bv64, b: bv64)
    ensures Xor(a, Xor(a, b)) == b
  {
  }

  lemma XorFlip(a: bv64, b: bv64)
    ensures Xor(a, b) == Xor(b, a) && Xor(0, a) == a
  {
  }

  lemma XorCancel(a: bv64, b: bv64, c: bv64)
    ensures Xor(a, c) == Xor(b, c) <==> a == b
  {
  }

  /** The XOR of all the hashes, in whatever order they are taken. */
  ghost function XorAll(h: Hashes): bv64 {
    if h == map[] then 0
    else
      var k :| k in h;
      Xor(h[k], XorAll(h - {k}))
  }

  lemma {:induction false} XorUnfold(h: Hashes) returns (k: RouterId)
    requires h != map[]
    ensures k in h && XorAll(h) == Xor(h[k], XorAll(h - {k}))
  {
    k :| k in h && XorAll(h) == Xor(h[k], XorAll(h - {k}));
  }

  lemma RemoveTwo(h: Hashes, a: RouterId, b: RouterId)
    ensures (h - {a}) - {b} == (h - {b}) - {a}
  {
  }

  lemma RemovedSmaller(h: Hashes, k: RouterId)
    requires k in h
    ensures |h - {k}| < |h|
  {
  }

  /** Any entry may be taken first. */
  lemma {:induction false} XorTake(h: Hashes, k: RouterId)
    requires k in h
    ensures XorAll(h) == Xor(h[k], XorAll(h - {k}))
    decreases |h|
  {
    hide XorAll, Xor;
    var c := XorUnfold(h);
    if c != k {
      RemovedSmaller(h, c);
      RemovedSmaller(h, k);
      XorTake(h - {c}, k);
      XorTake(h - {k}, c);
      RemoveTwo(h, c, k);
      XorSwap(h[c], h[k], XorAll((h - {c}) - {k}));
    }
  }

  lemma XorSet(h: Hashes, k: RouterId, v: bv64)
    ensures XorAll(h[k := v]) == Xor(v, XorAll(h - {k}))
  {
    hide XorAll, Xor;
    assert h[k := v] - {k} == h - {k};
    XorTake(h[k := v], k);
  }

  /** Stores that differ in one contact have equal hashes only if its content hashes are equal. */
  lemma OneChangeShows(h: Hashes, k: RouterId, a: bv64, b: bv64)
    ensures XorAll(h[k := a]) == XorAll(h[k := b]) <==> a == b
  {
    hide XorAll, Xor;
    XorSet(h, k, a);
    XorSet(h, k, b);
    XorCancel(a, b, XorAll(h - {k}));
  }

  // ----- what the index should be -----

  /** The content hashes of the contacts in a bucket. */
  function BucketHashes(hash: Bytes -> bv64, known: Contacts, bucket: nat): Hashes {
    map id | id in known && BucketOf(id) == bucket :: hash(known[id].identity)
  }

  /** The value a node announces for a bucket. */
  ghost function BucketValue(hash: Bytes -> bv64, known: Contacts, bucket: nat): bv64 {
    XorAll(BucketHashes(hash, known, bucket))
  }

  /** put_rc on the store alone. */
  function Stored(known: Contacts, rc: RelayContact): bool {
    rc.id !in known || rc.timestamp - known[rc.id].timestamp >= MIN_GOSSIP_RC_AGE
  }

  function AfterPut(known: Contacts, rc: RelayContact): Contacts {
    if Stored(known, rc) then known[rc.id := rc] else known
  }

  ghost function AfterRemove(known: Contacts, remove: RelayContact -> bool): Contacts {
    map id | id in known && !remove(known[id]) :: known[id]
  }

  predicate KeyedById(known: Contacts) {
    forall id :: id in known ==> known[id].id == id
  }

  lemma PutBucket(hash: Bytes -> bv64, known: Contacts, rc: RelayContact, bucket: nat)
    ensures BucketHashes(hash, known[rc.id := rc], bucket)
            == if BucketOf(rc.id) == bucket then BucketHashes(hash, known, bucket)[rc.id := hash(rc.identity)]
               else BucketHashes(hash, known, bucket)
  {
  }

  lemma RemoveBucket(hash: Bytes -> bv64, known: Contacts, id: RouterId, bucket: nat)
    ensures BucketHashes(hash, known - {id}, bucket)
            == if BucketOf(id) == bucket then BucketHashes(hash, known, bucket) - {id} else BucketHashes(hash, known, bucket)
  {
  }

  /** The hash of a bucket after a contact's old contribution is taken out and a new one put in. */
  lemma Rehash(h: Hashes, id: RouterId, old0: bv64, value: bv64)
    requires old0 == XorAll(h)
    ensures var recorded := if id in h then h[id] else 0;
            var without := Xor(old0, recorded);
            without == XorAll(h - {id}) && Xor(without, value) == XorAll(h[id := value])
  {
    hide XorAll, Xor;
    var recorded := if id in h then h[id] else 0;
    if id in h {
      XorTake(h, id);
      XorFlip(old0, recorded);
      XorUndo(recorded, XorAll(h - {id}));
    } else {
      assert h - {id} == h;
      XorFlip(old0, 0);
      XorFlip(0, old0);
    }
    XorSet(h, id, value);
    XorFlip(XorAll(h - {id}), value);
  }

  class RcStore {
    const hash: Bytes -> bv64
    const self: RouterId
    const isRelay: bool
    var knownRcs: Contacts
    const rcHashes: array<Hashes>
    const bucketHashes: array<bv64>

    /** The hashes recorded for each bucket are those of the contacts held, and their XOR is kept. */
    ghost predicate Indexed(known: Contacts)
      reads this, rcHashes, bucketHashes
    {
      && rcHashes.Length == bucketHashes.Length == BUCKETS && rcHashes as object != bucketHashes
      && forall b :: 0 <= b < BUCKETS ==>
           rcHashes[b] == BucketHashes(hash, known, b) && bucketHashes[b] == BucketValue(hash, known, b)
    }

    ghost predicate Valid()
      reads this, rcHashes, bucketHashes
    {
      KeyedById(knownRcs) && Indexed(knownRcs)
    }

    constructor (hash: Bytes -> bv64, self: RouterId, isRelay: bool)
      ensures Valid() && knownRcs == map[] && fresh(rcHashes) && fresh(bucketHashes)
      ensures this.hash == hash && this.self == self && this.isRelay == isRelay
    {
      this.hash, this.self, this.isRelay := hash, self, isRelay;
      knownRcs := map[];
      rcHashes := new Hashes[BUCKETS](_ => map[]);
      bucketHashes := new bv64[BUCKETS](_ => 0);
      new;
      forall b | 0 <= b < BUCKETS
        ensures BucketHashes(hash, knownRcs, b) == map[]
      {
      }
    }

    /** update_rc_buckets; `before` is the store the index matches on entry. */
    method UpdateRcBuckets(rc: RelayContact, added: bool, ghost before: Contacts)
      requires Indexed(before)
      modifies rcHashes, bucketHashes
      ensures Indexed(if added then before[rc.id := rc] else before - {rc.id})
    {
      hide XorAll, Xor, BucketHashes;
      var bucket := BucketOf(rc.id);
      var hashes := rcHashes[bucket];
      var recorded := if rc.id in hashes then hashes[rc.id] else 0;
      Rehash(hashes, rc.id, bucketHashes[bucket], hash(rc.identity));
      bucketHashes[bucket] := Xor(bucketHashes[bucket], recorded);
      if added {
        recorded := hash(rc.identity);
        bucketHashes[bucket] := Xor(bucketHashes[bucket], recorded);
        rcHashes[bucket] := hashes[rc.id := recorded];
      } else {
        rcHashes[bucket] := hashes - {rc.id};
      }
      ghost var after := if added then before[rc.id := rc] else before - {rc.id};
      forall b | 0 <= b < BUCKETS
        ensures rcHashes[b] == BucketHashes(hash, after, b) && bucketHashes[b] == BucketValue(hash, after, b)
      {
        PutBucket(hash, before, rc, b);
        RemoveBucket(hash, before, rc.id, b);
      }
    }

    /**
     put_rc. The contact is kept unless a stored one is less than a minute older; only a
     significant change, one the hash can see, touches the index.
     */
    method PutRc(rc: RelayContact) returns (stored: bool, gossip: bool)
      requires Valid()
      modifies this`knownRcs, rcHashes, bucketHashes
      ensures Valid() && knownRcs == AfterPut(old(knownRcs), rc)
      ensures stored <==> Stored(old(knownRcs), rc)
      ensures gossip <==>
                && stored && isRelay
                && (|| rc.id !in old(knownRcs) || rc.id == self
                    || rc.timestamp - old(knownRcs)[rc.id].timestamp >= OUTDATED_AGE
                    || hash(rc.identity) != hash(old(knownRcs)[rc.id].identity))
    {
      hide BucketHashes, BucketValue;
      ghost var before := knownRcs;
      var shouldGossip, significant := true, true;
      if rc.id in knownRcs {
        var held := knownRcs[rc.id];
        if rc.timestamp - held.timestamp < MIN_GOSSIP_RC_AGE {
          return false, false;
        }
        significant := hash(rc.identity) != hash(held.identity);
        shouldGossip := rc.id == self || rc.timestamp - held.timestamp >= OUTDATED_AGE || significant;
      }
      knownRcs := knownRcs[rc.id := rc];
      if significant {
        UpdateRcBuckets(rc, true, before);
      } else {
        forall b | 0 <= b < BUCKETS
          ensures BucketHashes(hash, knownRcs, b) == BucketHashes(hash, before, b)
          ensures BucketValue(hash, knownRcs, b) == BucketValue(hash, before, b)
        {
          MundaneValue(hash, before, rc, b);
        }
      }
      return true, shouldGossip && isRelay;
    }

    /** remove_rcs_if: a pass over the store that erases as it goes. */
    method RemoveRcsIf(remove: RelayContact -> bool) returns (removed: seq<RouterId>)
      requires Valid()
      modifies this`knownRcs, rcHashes, bucketHashes
      ensures Valid() && knownRcs == AfterRemove(old(knownRcs), remove)
      ensures forall id :: id in removed <==> id in old(knownRcs) && id !in knownRcs
    {
      hide BucketHashes, BucketValue;
      ghost var before := knownRcs;
      var todo := knownRcs.Keys;
      removed := [];
      while todo != {}
        invariant Valid() && todo <= before.Keys
        invariant forall id :: id in knownRcs <==> id in before && (id in todo || !remove(before[id]))
        invariant forall id :: id in knownRcs ==> knownRcs[id] == before[id]
        invariant forall id :: id in removed <==> id in before && id !in knownRcs
        decreases |todo|
      {
        var id :| id in todo;
        todo := todo - {id};
        var rc := knownRcs[id];
        if remove(rc) {
          removed := removed + [id];
          UpdateRcBuckets(rc, false, knownRcs);
          knownRcs := knownRcs - {id};
        }
      }
      assert knownRcs == AfterRemove(before, remove);
    }

    /** The part of load_from_disk that indexes what was read. */
    method Load(rcs: Contacts)
      requires Valid() && knownRcs == map[] && KeyedById(rcs)
      modifies this`knownRcs, rcHashes, bucketHashes
      ensures Valid() && knownRcs == rcs
    {
      hide BucketHashes, BucketValue;
      knownRcs := rcs;
      var todo := rcs.Keys;
      ghost var done: Contacts := map[];
      while todo != {}
        invariant KeyedById(knownRcs) && knownRcs == rcs && todo <= rcs.Keys
        invariant Indexed(done) && done.Keys == rcs.Keys - todo
        invariant forall id :: id in done ==> done[id] == rcs[id]
        decreases |todo|
      {
        var id :| id in todo;
        todo := todo - {id};
        UpdateRcBuckets(rcs[id], true, done);
        done := done[id := rcs[id]];
      }
      assert done == rcs;
    }
  }

  lemma MundaneValue(hash: Bytes -> bv64, known: Contacts, rc: RelayContact, bucket: nat)
    requires rc.id in known && hash(rc.identity) == hash(known[rc.id].identity)
    ensures BucketHashes(hash, known[rc.id := rc], bucket) == BucketHashes(hash, known, bucket)
    ensures BucketValue(hash, known[rc.id := rc], bucket) == BucketValue(hash, known, bucket)
  {
  }

  // ----- every run -----

  datatype Change = Put(rc: RelayContact) | Remove(remove: RelayContact -> bool)

  /** The contacts held after a run of changes, without any index. */
  ghost function Contents(loaded: Contacts, changes: seq<Change>): Contacts {
    if changes == [] then loaded
    else
      var before, last := Contents(loaded, changes[..|changes| - 1]), changes[|changes| - 1];
      match last
      case Put(rc) => AfterPut(before, rc)
      case Remove(remove) => AfterRemove(before, remove)
  }

  lemma ContentsSnoc(loaded: Contacts, changes: seq<Change>, c: Change)
    ensures Contents(loaded, changes + [c]) ==
            if c.Put? then AfterPut(Contents(loaded, changes), c.rc) else AfterRemove(Contents(loaded, changes), c.remove)
  {
    assert (changes + [c])[..|changes|] == changes;
  }

  /** A contact is taken for a relay not held, and replaces a held one if and only if a minute newer. */
  lemma PutReplaces(loaded: Contacts, changes: seq<Change>, rc: RelayContact)
    ensures var before, after := Contents(loaded, changes), Contents(loaded, changes + [Put(rc)]);
            && rc.id in after
            && after[rc.id] == (if rc.id in before && rc.timestamp < before[rc.id].timestamp + 60 then before[rc.id] else rc)
            && after - {rc.id} == before - {rc.id}
  {
    ContentsSnoc(loaded, changes, Put(rc));
  }

  /** No removal of the run takes the relay. */
  ghost predicate Spares(loaded: Contacts, changes: seq<Change>, more: seq<Change>, id: RouterId) {
    forall k :: 0 <= k < |more| && more[k].Remove? ==> SparedBy(Contents(loaded, changes + more[..k]), more[k], id)
  }

  ghost predicate SparedBy(known: Contacts, c: Change, id: RouterId)
    requires c.Remove?
  {
    id in known ==> !c.remove(known[id])
  }

  /** While a relay is not removed, the timestamp held for it never goes back. */
  lemma {:induction false} StampNeverBack(loaded: Contacts, changes: seq<Change>, more: seq<Change>, id: RouterId)
    requires id in Contents(loaded, changes) && Spares(loaded, changes, more, id)
    ensures id in Contents(loaded, changes + more)
    ensures Contents(loaded, changes + more)[id].timestamp >= Contents(loaded, changes)[id].timestamp
    decreases |more|
  {
    hide Contents;
    if more == [] {
      assert changes + more == changes;
    } else {
      var front, c := more[..|more| - 1], more[|more| - 1];
      assert changes + more == (changes + front) + [c];
      assert Spares(loaded, changes, front, id) by {
        forall k | 0 <= k < |front| && front[k].Remove?
          ensures SparedBy(Contents(loaded, changes + front[..k]), front[k], id)
        {
          assert front[..k] == more[..k] && front[k] == more[k];
        }
      }
      StampNeverBack(loaded, changes, front, id);
      if c.Put? {
        PutReplaces(loaded, changes + front, c.rc);
        var before: Contacts, after: Contacts := Contents(loaded, changes + front), Contents(loaded, changes + front + [c]);
        assert id != c.rc.id ==> id in after - {c.rc.id} && after[id] == before[id];
      } else {
        ContentsSnoc(loaded, changes + front, c);
        assert SparedBy(Contents(loaded, changes + front), c, id);
      }
    }
  }

  /** What is held is less than a minute older than any contact put for the relay since. */
  lemma HeldIsNewest(loaded: Contacts, changes: seq<Change>, rc: RelayContact, more: seq<Change>)
    requires Spares(loaded, changes + [Put(rc)], more, rc.id)
    ensures rc.id in Contents(loaded, changes + [Put(rc)] + more)
    ensures Contents(loaded, changes + [Put(rc)] + more)[rc.id].timestamp > rc.timestamp - 60
  {
    hide Contents;
    PutReplaces(loaded, changes, rc);
    StampNeverBack(loaded, changes + [Put(rc)], more, rc.id);
  }

  /** After any load, puts and removals the store holds what they amount to and its index is exact. */
  method Replay(s: RcStore, loaded: Contacts, changes: seq<Change>)
    requires s.Valid() && s.knownRcs == map[] && KeyedById(loaded)
    modifies s, s.rcHashes, s.bucketHashes
    ensures s.Valid() && s.knownRcs == Contents(loaded, changes)
  {
    hide BucketHashes, BucketValue, AfterPut, AfterRemove;
    s.Load(loaded);
    for i := 0 to |changes|
      invariant s.Valid() && s.knownRcs == Contents(loaded, changes[..i])
    {
      assert changes[..i + 1][..i] == changes[..i];
      match changes[i] {
        case Put(rc) => var _, _ := s.PutRc(rc);
        case Remove(remove) => var _ := s.RemoveRcsIf(remove);
      }
    }
    assert changes[..|changes|] == changes;
  }

  /**
   Stores that hold the same contacts, whatever their timestamps and whatever was loaded, put and
   removed on the way, announce the same value for every bucket.
   */
  lemma SameContentsSameBuckets(a: RcStore, b: RcStore)
    requires a.Valid() && b.Valid() && a.hash == b.hash && a.knownRcs.Keys == b.knownRcs.Keys
    requires forall id :: id in a.knownRcs ==> a.knownRcs[id].identity == b.knownRcs[id].identity
    ensures a.bucketHashes[..] == b.bucketHashes[..]
  {
    hide XorAll;
    forall bucket | 0 <= bucket < BUCKETS
      ensures a.bucketHashes[bucket] == b.bucketHashes[bucket]
    {
      assert forall id :: id in a.knownRcs <==> id in b.knownRcs;
      assert BucketHashes(a.hash, a.knownRcs, bucket) == BucketHashes(a.hash, b.knownRcs, bucket);
    }
  }
}
