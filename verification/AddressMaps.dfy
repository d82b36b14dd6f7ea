/**
 Local addresses for remotes: the two-way map of src/address/map.hpp, the range iterator of
 src/address/ip_range.hpp and the allocation loop of src/handlers/tun.cpp.
 */
module AddressMaps {
  import opened WireBytes
  import opened RouterIds

  datatype NetworkAddress = NetworkAddress(pubkey: RouterId, isClient: bool)

  type Forward = map<nat, NetworkAddress>
  type Backward = map<NetworkAddress, nat>

  /** The two directions are mutual inverses. */
  ghost predicate Inverse(f: Forward, b: Backward) {
    && (forall ip :: ip in f ==> f[ip] in b && b[f[ip]] == ip)
    && (forall r :: r in b ==> b[r] in f && f[b[r]] == r)
  }

  /** Remotes and local addresses are paired one to one. */
  lemma NeverShared(f: Forward, b: Backward, r: NetworkAddress, s: NetworkAddress)
    requires Inverse(f, b) && r in b && s in b && b[r] == b[s]
    ensures r == s
  {
  }

  class AddressMap {
    var localToRemote: Forward
    var remoteToLocal: Backward

    ghost predicate Valid()
      reads this
    {
      Inverse(localToRemote, remoteToLocal)
    }

    constructor ()
      ensures Valid() && localToRemote == map[] && remoteToLocal == map[]
    {
      localToRemote := map[];
      remoteToLocal := map[];
    }

    /**
     insert: false where the original throws. A remote that is already mapped is noticed only
     after the first direction has been written, so then the directions disagree.
     */
    method Insert(local: nat, remote: NetworkAddress) returns (ok: bool)
      requires Valid()
      modifies this
      ensures ok <==> local !in old(localToRemote) && remote !in old(remoteToLocal)
      ensures localToRemote ==
              if local in old(localToRemote) then old(localToRemote) else old(localToRemote)[local := remote]
      ensures remoteToLocal == if ok then old(remoteToLocal)[remote := local] else old(remoteToLocal)
      ensures Valid() <==> ok || local in old(localToRemote)
    {
      if local in localToRemote {
        return false;
      }
      localToRemote := localToRemote[local := remote];
      if remote in remoteToLocal {
        assert localToRemote[local] == remote && remoteToLocal[remote] != local;
        return false;
      }
      remoteToLocal := remoteToLocal[remote := local];
      return true;
    }

    function LocalOf(remote: NetworkAddress): (r: Option<nat>)
      reads this
      ensures Valid() ==> forall ip :: r == Some(ip) <==> ip in localToRemote && localToRemote[ip] == remote
    {
      if remote in remoteToLocal then Some(remoteToLocal[remote]) else None
    }

    function RemoteOf(local: nat): (r: Option<NetworkAddress>)
      reads this
      ensures Valid() ==> forall a :: r == Some(a) <==> a in remoteToLocal && remoteToLocal[a] == local
    {
      if local in localToRemote then Some(localToRemote[local]) else None
    }

    /** erase(remote): exactly the remote's pair goes. */
    method EraseRemote(remote: NetworkAddress)
      requires Valid()
      modifies this
      ensures Valid()
      ensures remoteToLocal == old(remoteToLocal) - {remote}
      ensures localToRemote ==
              if remote in old(remoteToLocal) then old(localToRemote) - {old(remoteToLocal)[remote]}
              else old(localToRemote)
    {
      if remote in remoteToLocal {
        localToRemote := localToRemote - {remoteToLocal[remote]};
        remoteToLocal := remoteToLocal - {remote};
      }
    }

    /** erase(local). */
    method EraseLocal(local: nat)
      requires Valid()
      modifies this
      ensures Valid()
      ensures localToRemote == old(localToRemote) - {local}
      ensures remoteToLocal ==
              if local in old(localToRemote) then old(remoteToLocal) - {old(localToRemote)[local]}
              else old(remoteToLocal)
    {
      if local in localToRemote {
        var remote := localToRemote[local];
        if remote in remoteToLocal {
          remoteToLocal := remoteToLocal - {remote};
        }
        localToRemote := localToRemote - {local};
      }
    }
  }

  /** IPRangeIterator, over addresses up to `top`, the largest of the address family. */
  class RangeIterator {
    var curr: nat
    const base: nat
    const last: nat
    const top: nat

    predicate Valid()
      reads this
    {
      base <= curr <= top && base <= last <= top
    }

    /** Where stepping stops: the last address, unless the position is already past it. */
    function End(): nat
      reads this
    {
      if curr <= last then last else top
    }

    constructor (ip: nat, base: nat, last: nat, top: nat)
      requires base <= ip <= top && base <= last <= top
      ensures Valid() && curr == ip && this.base == base && this.last == last && this.top == top
    {
      curr, this.base, this.last, this.top := ip, base, last, top;
    }

    /** next_ip: steps forward, or stays at the end. */
    method NextIp() returns (r: Option<nat>)
      requires Valid()
      modifies this
      ensures Valid() && End() == old(End())
      ensures old(curr) < End() ==> curr == old(curr) + 1 && r == Some(curr)
      ensures old(curr) == End() ==> curr == old(curr) && r == None
    {
      if curr == last || curr == top {
        return None;
      }
      curr := curr + 1;
      return Some(curr);
    }

    method Reset()
      requires Valid()
      modifies this
      ensures Valid() && curr == base
    {
      curr := base;
    }
  }

  /** Every address after `from` up to `to` is mapped. */
  ghost predicate AllMapped(f: Forward, from: nat, to: nat) {
    forall ip: nat :: from < ip <= to ==> ip in f
  }

  /** The next unmapped address after `curr` up to `end`, or else after the base up to the last. */
  ghost predicate NextFree(f: Forward, base: nat, curr: nat, end: nat, last: nat, r: nat) {
    && r !in f
    && (|| (curr < r <= end && AllMapped(f, curr, r - 1))
        || (base < r <= last && AllMapped(f, curr, end) && AllMapped(f, base, r - 1)))
  }

  /** The position of the iterator and the map decide the address. */
  lemma NextFreeUnique(f: Forward, base: nat, curr: nat, end: nat, last: nat, r: nat, s: nat)
    requires NextFree(f, base, curr, end, last, r) && NextFree(f, base, curr, end, last, s)
    ensures r == s
  {
  }

  /**
   The address is in the range exactly when the position is not past the last address, or every
   address from there to the top is mapped.
   */
  lemma InRange(it: RangeIterator, f: Forward, r: nat)
    requires it.Valid() && NextFree(f, it.base, it.curr, it.End(), it.last, r)
    ensures it.base < r && (r <= it.last <==> it.curr <= it.last || AllMapped(f, it.curr, it.End()))
  {
  }

  /** get_next_local_ipvX. */
  method GetNextLocal(it: RangeIterator, mapping: AddressMap) returns (r: Option<nat>)
    requires it.Valid()
    modifies it
    ensures it.Valid()
    ensures r.Some? ==>
              && NextFree(mapping.localToRemote, it.base, old(it.curr), old(it.End()), it.last, r.value)
              && it.curr == r.value
    ensures r.None? <==>
              AllMapped(mapping.localToRemote, old(it.curr), old(it.End()))
              && AllMapped(mapping.localToRemote, it.base, it.last)
    ensures r.None? ==> it.curr == it.last
  {
    var hasReset := false;
    ghost var f := mapping.localToRemote;
    ghost var end := it.End();
    while true
      invariant it.Valid() && mapping.localToRemote == f
      invariant !hasReset ==> it.End() == end && old(it.curr) <= it.curr && AllMapped(f, old(it.curr), it.curr)
      invariant hasReset ==> it.curr <= it.last && AllMapped(f, old(it.curr), end) && AllMapped(f, it.base, it.curr)
      decreases if hasReset then 0 else 1, it.top - it.curr
    {
      var next := it.NextIp();
      if next.Some? {
        if next.value !in mapping.localToRemote {
          return next;
        }
        continue;
      }
      if hasReset {
        break;
      }
      it.Reset();
      hasReset := true;
    }
    return None;
  }
}
