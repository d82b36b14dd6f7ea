/** The tun device's address book of src/handlers/tun.cpp: who holds which local address. */
module Tun {
  import opened WireBytes
  import opened RouterIds
  import opened Bits
  import opened IpNets
  import opened AddressMaps
  import opened KeyAddresses
  import opened ExpiredCache
  import opened Sequences

  // ----- the expired list and the index of its nodes -----

  /** A node of the linked list; its id stands for the iterator that names it. */
  datatype Node = Node(id: nat, remote: NetworkAddress)

  function Remotes(list: seq<Node>): (r: seq<NetworkAddress>)
    ensures |r| == |list| && forall i :: 0 <= i < |r| ==> r[i] == list[i].remote
  {
    seq(|list|, i requires 0 <= i < |list| => list[i].remote)
  }

  /** The index holds, for exactly the remotes of the list, the node of each. */
  ghost predicate Indexed(list: seq<Node>, index: map<NetworkAddress, nat>, next: nat) {
    && (forall i, j :: 0 <= i < j < |list| ==> list[i].id != list[j].id)
    && (forall i :: 0 <= i < |list| ==>
                      list[i].id < next && list[i].remote in index && index[list[i].remote] == list[i].id)
    && index.Keys == Elems(Remotes(list))
  }

  lemma IndexedDistinct(list: seq<Node>, index: map<NetworkAddress, nat>, next: nat)
    requires Indexed(list, index, next)
    ensures Distinct(Remotes(list))
  {
  }

  /** The list without the node at a position. */
  function Unlink(list: seq<Node>, k: nat): seq<Node>
    requires k < |list|
  {
    list[..k] + list[k + 1..]
  }

  /** With each remote once, unlinking its node takes it out of the list of remotes. */
  lemma UnlinkRemotes(list: seq<Node>, k: nat)
    requires k < |list| && Distinct(Remotes(list))
    ensures Remotes(Unlink(list, k)) == Without(Remotes(list), list[k].remote)
    ensures Elems(Remotes(Unlink(list, k))) == Elems(Remotes(list)) - {list[k].remote}
    ensures list[k].remote !in Remotes(Unlink(list, k))
  {
    hide Without, Elems;
    var all, x := Remotes(list), list[k].remote;
    var a, b := all[..k], all[k + 1..];
    forall i | 0 <= i < |all| && i != k
      ensures all[i] != x
    {
      assert if i < k then all[i] != all[k] else all[k] != all[i];
    }
    assert x !in a && x !in b;
    assert all == a + [x] + b;
    assert Remotes(Unlink(list, k)) == a + b;
    WithoutMiddle(a, x, b);
    ElemsAround(a, x, b);
  }

  lemma WithoutMiddle(a: seq<NetworkAddress>, x: NetworkAddress, b: seq<NetworkAddress>)
    requires x !in a && x !in b
    ensures Without(a + [x] + b, x) == a + b
  {
    hide Without;
    WithoutConcat(a + [x], b, x);
    WithoutConcat(a, [x], x);
    WithoutAbsent(a, x);
    WithoutAbsent(b, x);
    WithoutOnly(x);
    assert a + [] == a;
  }

  lemma WithoutOnly(x: NetworkAddress)
    ensures Without([x], x) == []
  {
  }

  lemma UnlinkKeeps(list: seq<Node>, index: map<NetworkAddress, nat>, next: nat, k: nat)
    requires Indexed(list, index, next) && k < |list|
    ensures Indexed(Unlink(list, k), index - {list[k].remote}, next)
    ensures Remotes(Unlink(list, k)) == Without(Remotes(list), list[k].remote)
    ensures list[k].remote !in Remotes(Unlink(list, k))
  {
    hide Without, Elems, Remotes;
    IndexedDistinct(list, index, next);
    UnlinkRemotes(list, k);
    var shorter, x := Unlink(list, k), list[k].remote;
    forall i | 0 <= i < |shorter|
      ensures shorter[i] == list[if i < k then i else i + 1] && shorter[i].remote != x
    {
      assert Remotes(shorter)[i] in Remotes(shorter);
    }
  }

  lemma ElemsAround(a: seq<NetworkAddress>, x: NetworkAddress, b: seq<NetworkAddress>)
    requires x !in a && x !in b
    ensures Elems(a + b) == Elems(a + [x] + b) - {x}
  {
  }

  lemma LinkKeeps(list: seq<Node>, index: map<NetworkAddress, nat>, next: nat, x: NetworkAddress)
    requires Indexed(list, index, next) && x !in index
    ensures Indexed(list + [Node(next, x)], index[x := next], next + 1)
    ensures Remotes(list + [Node(next, x)]) == Remotes(list) + [x]
  {
    hide Elems;
    var more := list + [Node(next, x)];
    assert Remotes(more) == Remotes(list) + [x];
    ElemsPush(Remotes(list), x);
    forall i | 0 <= i < |list|
      ensures more[i].remote != x
    {
      assert list[i].remote in index;
    }
  }

  // ----- the endpoint -----

  /** The local network of one family, with the range the iterator walks. */
  datatype LocalNet = LocalNet(width: nat, net: Net, base: nat, last: nat)

  ghost predicate NetOk(n: LocalNet) {
    && n.net.mask <= n.width && n.base <= n.net.ip && n.base <= n.last
    && forall ip: nat :: n.base <= ip <= n.last ==> Contains(n.width, n.net, ip)
  }

  /**
   Our own address is not past the last one of the range. The configuration refuses the IPv4
   broadcast address for this; see InRange for what would be handed out otherwise.
   */
  predicate OwnInRange(n: LocalNet) {
    n.net.ip <= n.last
  }

  /** Every mapped address lies in the local network. */
  ghost predicate AllInNet(n: LocalNet, f: Forward)
    requires n.net.mask <= n.width
  {
    forall ip :: ip in f ==> Contains(n.width, n.net, ip)
  }

  /** A range that starts at the network's base and stays below its next block is in the network. */
  lemma RangeInNet(width: nat, ip: nat, mask: nat, last: nat)
    requires mask <= width
    requires var base := Prefix(width, mask, ip) * Pow2(width - mask);
             base <= ip && base <= last < base + Pow2(width - mask)
    ensures NetOk(LocalNet(width, Net(ip, mask), Prefix(width, mask, ip) * Pow2(width - mask), last))
  {
    hide Shr, Pow2;
    var k := width - mask;
    var q := Prefix(width, mask, ip);
    forall x: nat | q * Pow2(k) <= x <= last
      ensures Shr(x, k) == q
    {
      ShrHigh(q, k, x - q * Pow2(k));
    }
  }

  /** A remote and the local address set aside for it in the configuration. */
  datatype Reservation = Reservation(remote: NetworkAddress, local: nat)

  /** Enters the reservations that are inside the network and clash with no earlier entry. */
  method AddMappings(n: LocalNet, m: AddressMap, reserved: seq<Reservation>)
    requires NetOk(n) && m.Valid() && AllInNet(n, m.localToRemote)
    modifies m
    ensures m.Valid() && AllInNet(n, m.localToRemote)
    ensures forall ip :: ip in old(m.localToRemote) ==>
                           ip in m.localToRemote && m.localToRemote[ip] == old(m.localToRemote)[ip]
    ensures forall ip :: ip in m.localToRemote && ip !in old(m.localToRemote) ==>
                           Reservation(m.localToRemote[ip], ip) in reserved
    ensures forall p :: p in reserved && Contains(n.width, n.net, p.local) ==>
                          p.remote in m.remoteToLocal || p.local in m.localToRemote
  {
    assert n.net.mask <= n.width;
    hide Inverse, NetOk, Contains;
    ghost var before := m.localToRemote;
    for i := 0 to |reserved|
      invariant m.Valid() && AllInNet(n, m.localToRemote)
      invariant forall ip :: ip in before ==> ip in m.localToRemote && m.localToRemote[ip] == before[ip]
      invariant forall ip :: ip in m.localToRemote && ip !in before ==>
                               Reservation(m.localToRemote[ip], ip) in reserved
      invariant forall j :: 0 <= j < i && Contains(n.width, n.net, reserved[j].local) ==>
                              reserved[j].remote in m.remoteToLocal || reserved[j].local in m.localToRemote
    {
      var p := reserved[i];
      if !Contains(n.width, n.net, p.local) {
        continue;
      }
      if p.remote in m.remoteToLocal {
        continue;
      }
      if p.local in m.localToRemote {
        continue;
      }
      assert Reservation(p.remote, p.local) == p;
      var ok := m.Insert(p.local, p.remote);
      assert ok;
    }
  }

  /** A map that holds our own address, then the reservations. */
  method StartMap(n: LocalNet, me: NetworkAddress, reserved: seq<Reservation>) returns (m: AddressMap)
    requires NetOk(n)
    ensures fresh(m) && m.Valid() && AllInNet(n, m.localToRemote) && m.LocalOf(me) == Some(n.net.ip)
  {
    hide NetOk, Contains, Inverse, AllInNet;
    m := new AddressMap();
    var ok := m.Insert(n.net.ip, me);
    assert ok;
    OwnInNet(n, me);
    AddMappings(n, m, reserved);
  }

  class TunEndpoint {
    const net4: LocalNet
    const net6: LocalNet
    /** The IPv6 address of the local network as its bytes. */
    const ip6: Ipv6
    const keep: nat
    const map4: AddressMap
    const map6: AddressMap
    const it4: RangeIterator
    const it6: RangeIterator
    var expired: seq<Node>
    var expIt: map<NetworkAddress, nat>
    var nextNode: nat

    ghost predicate Valid()
      reads this, map4, map6, it4, it6
    {
      && map4 != map6 && it4 != it6
      && NetOk(net4) && NetOk(net6) && net6.width == 128 && net6.net.ip == Value(ip6)
      && map4.Valid() && map6.Valid() && it4.Valid() && it6.Valid()
      && it4.base == net4.base && it4.last == net4.last && it6.base == net6.base && it6.last == net6.last
      && (OwnInRange(net4) ==> it4.curr <= net4.last && AllInNet(net4, map4.localToRemote))
      && (OwnInRange(net6) ==> it6.curr <= net6.last && AllInNet(net6, map6.localToRemote))
      && Indexed(expired, expIt, nextNode)
    }

    /** Mapped remotes and remembered ones, for the histories of ExpiredCache. */
    ghost function View(m: AddressMap): State
      reads this, m
    {
      State(m.remoteToLocal.Keys, Remotes(expired))
    }

    constructor (net4: LocalNet, net6: LocalNet, ip6: Ipv6, keep: nat, me: NetworkAddress,
                 reserved4: seq<Reservation>, reserved6: seq<Reservation>)
      requires NetOk(net4) && NetOk(net6) && net6.width == 128 && net6.net.ip == Value(ip6)
      requires net4.last <= TOP4 && net4.net.ip <= TOP4 && net6.last <= TOP6 && net6.net.ip <= TOP6
      ensures Valid() && fresh(map4) && fresh(map6) && fresh(it4) && fresh(it6)
      ensures this.net4 == net4 && this.net6 == net6 && this.ip6 == ip6 && this.keep == keep
      ensures expired == []
      ensures map4.LocalOf(me) == Some(net4.net.ip) && map6.LocalOf(me) == Some(net6.net.ip)
    {
      hide NetOk, Contains, Inverse, AllInNet, Indexed, Value;
      EmptyIndexed();
      RangeStarts(net4);
      RangeStarts(net6);
      this.net4, this.net6, this.ip6, this.keep := net4, net6, ip6, keep;
      expired, expIt, nextNode := [], map[], 0;
      var m4 := StartMap(net4, me, reserved4);
      var m6 := StartMap(net6, me, reserved6);
      var i4 := new RangeIterator(net4.net.ip, net4.base, net4.last, TOP4);
      var i6 := new RangeIterator(net6.net.ip, net6.base, net6.last, TOP6);
      map4, map6, it4, it6 := m4, m6, i4, i6;
    }

    /** map4: the remote's address, kept if it has one; none exactly when the range is full. */
    method Map4(remote: NetworkAddress) returns (r: Option<nat>)
      requires Valid()
      modifies map4, it4
      ensures Valid()
      ensures remote in old(map4.remoteToLocal) ==> r == Some(old(map4.remoteToLocal)[remote])
      ensures remote !in old(map4.remoteToLocal) ==>
                && (r.Some? ==>
                      NextFree(old(map4.localToRemote), net4.base, old(it4.curr), old(it4.End()), net4.last, r.value))
                && (r.None? <==>
                      && AllMapped(old(map4.localToRemote), old(it4.curr), old(it4.End()))
                      && AllMapped(old(map4.localToRemote), net4.base, net4.last))
      ensures r.Some? ==> map4.remoteToLocal == old(map4.remoteToLocal)[remote := r.value]
      ensures r.None? ==> map4.remoteToLocal == old(map4.remoteToLocal)
      ensures r.Some? ==> View(map4) == Step(keep, old(View(map4)), Op.Map(remote))
    {
      hide Inverse, NextFree, AllMapped, Indexed, NetOk, AllInNet, Contains;
      r := map4.LocalOf(remote);
      if r.None? {
        r := GetNextLocal(it4, map4);
        if r.Some? {
          FreeInNet(net4, map4.localToRemote, old(it4.curr), old(it4.End()), r.value, remote);
          var ok := map4.Insert(r.value, remote);
          assert ok;
        }
      }
    }

    /** The address made from the remote's key. */
    function KeyIp(remote: NetworkAddress): nat
      requires net6.net.mask <= 128
    {
      Value(FromKey(ip6, net6.net.mask, remote.pubkey))
    }

    predicate KeyFree(f: Forward, remote: NetworkAddress)
      requires net6.net.mask <= 128
    {
      KeyIp(remote) !in f && KeyIp(remote) != net6.net.ip && KeyIp(remote) != net6.base
    }

    /**
     get_next_local_ipv6: the address made from the remote's key when it is free and neither our
     own nor the base, otherwise the next free one of the range.
     */
    method GetNextLocalIpv6(remote: NetworkAddress) returns (r: Option<nat>)
      requires Valid()
      modifies it6
      ensures Valid()
      ensures
        if KeyFree(map6.localToRemote, remote) then r == Some(KeyIp(remote))
        else
          && (r.Some? ==>
                NextFree(map6.localToRemote, net6.base, old(it6.curr), old(it6.End()), net6.last, r.value))
          && (r.None? <==>
                && AllMapped(map6.localToRemote, old(it6.curr), old(it6.End()))
                && AllMapped(map6.localToRemote, net6.base, net6.last))
      ensures r.Some? ==> r.value !in map6.localToRemote && r.value != net6.base
      ensures r.Some? && OwnInRange(net6) ==> Contains(128, net6.net, r.value)
    {
      hide Inverse, NextFree, AllMapped, Indexed, AllInNet, Contains, FromKey, Value;
      FromKeyInNet(ip6, net6.net.mask, remote.pubkey);
      assert Net(Value(ip6), net6.net.mask) == net6.net;
      if KeyFree(map6.localToRemote, remote) {
        return Some(KeyIp(remote));
      }
      r := GetNextLocal(it6, map6);
      if r.Some? {
        FreeInNet(net6, map6.localToRemote, old(it6.curr), old(it6.End()), r.value, remote);
      }
    }

    /** A remote without an IPv6 address is given one, if there is any. */
    method Assign6(remote: NetworkAddress) returns (r: Option<nat>)
      requires Valid() && remote !in map6.remoteToLocal
      modifies map6, it6
      ensures Valid()
      ensures r.Some? ==>
                && r.value !in old(map6.localToRemote) && r.value != net6.base
                && (OwnInRange(net6) ==> Contains(128, net6.net, r.value))
      ensures if KeyFree(old(map6.localToRemote), remote) then r == Some(KeyIp(remote))
              else
                && (r.Some? ==>
                      NextFree(old(map6.localToRemote), net6.base, old(it6.curr), old(it6.End()), net6.last, r.value))
                && (r.None? <==>
                      && AllMapped(old(map6.localToRemote), old(it6.curr), old(it6.End()))
                      && AllMapped(old(map6.localToRemote), net6.base, net6.last))
      ensures map6.remoteToLocal ==
              if r.Some? then old(map6.remoteToLocal)[remote := r.value] else old(map6.remoteToLocal)
    {
      assert net6.net.mask <= 128;
      hide Inverse, NextFree, AllMapped, Indexed, NetOk, AllInNet, Contains, FromKey, Value, KeyFree, KeyIp;
      r := GetNextLocalIpv6(remote);
      if r.Some? {
        EnterInNet(net6, map6.localToRemote, r.value, remote);
        var ok := map6.Insert(r.value, remote);
        assert ok;
      }
    }

    /** map6, with no result where the original throws. */
    method Map6(remote: NetworkAddress) returns (r: Option<nat>)
      requires Valid()
      modifies map6, it6
      ensures Valid()
      ensures remote in old(map6.remoteToLocal) ==> r == Some(old(map6.remoteToLocal)[remote])
      ensures r.Some? && remote !in old(map6.remoteToLocal) ==>
                && r.value !in old(map6.localToRemote) && r.value != net6.base
                && (OwnInRange(net6) ==> Contains(128, net6.net, r.value))
      ensures remote !in old(map6.remoteToLocal) && KeyFree(old(map6.localToRemote), remote) ==>
                r == Some(KeyIp(remote))
      ensures r.Some? && remote !in old(map6.remoteToLocal) && !KeyFree(old(map6.localToRemote), remote) ==>
                NextFree(old(map6.localToRemote), net6.base, old(it6.curr), old(it6.End()), net6.last, r.value)
      ensures r.None? <==>
                && remote !in old(map6.remoteToLocal) && !KeyFree(old(map6.localToRemote), remote)
                && AllMapped(old(map6.localToRemote), old(it6.curr), old(it6.End()))
                && AllMapped(old(map6.localToRemote), net6.base, net6.last)
      ensures r.Some? ==> map6.remoteToLocal == old(map6.remoteToLocal)[remote := r.value]
      ensures r.None? ==> map6.remoteToLocal == old(map6.remoteToLocal)
      ensures r.Some? ==> View(map6) == Step(keep, old(View(map6)), Op.Map(remote))
    {
      assert net6.net.mask <= 128;
      hide Inverse, NextFree, AllMapped, Indexed, NetOk, AllInNet, Contains, FromKey, Value, KeyFree, KeyIp;
      r := map6.LocalOf(remote);
      if r.None? {
        r := Assign6(remote);
      }
    }

    /** expire: the remote becomes the newest remembered, and the oldest beyond the size are forgotten. */
    method Expire(remote: NetworkAddress)
      requires Valid()
      modifies this, map4, map6
      ensures Valid()
      ensures View(map4) == Step(keep, old(View(map4)), Op.Expire(remote))
      ensures View(map6) == Step(keep, old(View(map6)), Op.Expire(remote))
      ensures map4.remoteToLocal == old(map4.remoteToLocal) - Elems(Dropped(Touch(old(Remotes(expired)), remote), keep))
      ensures map6.remoteToLocal == old(map6.remoteToLocal) - Elems(Dropped(Touch(old(Remotes(expired)), remote), keep))
    {
      hide Inverse, NetOk, AllInNet, Contains, Value, Without, Elems, Indexed, Dropped, Newest;
      ghost var before := Remotes(expired);
      if remote in expIt {
        NodeOf(expired, expIt, nextNode, remote);
        var k := Position(expIt[remote]);
        UnlinkKeeps(expired, expIt, nextNode, k);
        assert expired[k].remote == remote by {
          IndexedAt(expired, expIt, nextNode, k, remote);
        }
        expired := Unlink(expired, k);
        expIt := expIt - {remote};
      } else {
        AbsentWithout(expired, expIt, nextNode, remote);
      }
      assert Remotes(expired) == Without(before, remote);
      LinkKeeps(expired, expIt, nextNode, remote);
      expired, expIt, nextNode := expired + [Node(nextNode, remote)], expIt[remote := nextNode], nextNode + 1;
      PruneExpired();
    }

    /** Where in the list the node with this id is. */
    method Position(id: nat) returns (k: nat)
      requires exists i :: 0 <= i < |expired| && expired[i].id == id
      ensures k < |expired| && expired[k].id == id
    {
      k := 0;
      while expired[k].id != id
        invariant k < |expired| && forall i :: 0 <= i < k ==> expired[i].id != id
        decreases |expired| - k
      {
        k := k + 1;
      }
    }

    /** prune_expired. */
    method PruneExpired()
      requires Valid()
      modifies this, map4, map6
      ensures Valid()
      ensures Remotes(expired) == Newest(old(Remotes(expired)), keep)
      ensures map4.remoteToLocal == old(map4.remoteToLocal) - Elems(Dropped(old(Remotes(expired)), keep))
      ensures map6.remoteToLocal == old(map6.remoteToLocal) - Elems(Dropped(old(Remotes(expired)), keep))
    {
      hide Inverse, NetOk, Contains, AllInNet, Value, Without, Elems, Indexed, Remotes, Newest, Dropped;
      ghost var all := Remotes(expired);
      ghost var n := 0;
      assert all[0..] == all;
      NoneDropped(all);
      while |expired| > keep
        invariant Valid() && n <= |all| && Remotes(expired) == all[n..] && (n > 0 ==> |all| - n >= keep)
        invariant map4.remoteToLocal == old(map4.remoteToLocal) - Elems(all[..n])
        invariant map6.remoteToLocal == old(map6.remoteToLocal) - Elems(all[..n])
      {
        DropOldest();
        MinusNext(old(map4.remoteToLocal), all, n);
        MinusNext(old(map6.remoteToLocal), all, n);
        assert all[n..][1..] == all[n + 1..];
        n := n + 1;
      }
      PrunedTo(all, keep, n);
    }

    /** One round of prune_expired. */
    method DropOldest()
      requires Valid() && |expired| > 0
      modifies this, map4, map6
      ensures Valid()
      ensures Remotes(expired) == old(Remotes(expired))[1..]
      ensures map4.remoteToLocal == old(map4.remoteToLocal) - {old(Remotes(expired))[0]}
      ensures map6.remoteToLocal == old(map6.remoteToLocal) - {old(Remotes(expired))[0]}
    {
      hide Inverse, NetOk, Contains, Value, Without, Elems, Indexed;
      var remote := expired[0].remote;
      map4.EraseRemote(remote);
      map6.EraseRemote(remote);
      UnlinkKeeps(expired, expIt, nextNode, 0);
      assert Unlink(expired, 0) == expired[1..];
      expIt := expIt - {remote};
      expired := expired[1..];
    }
  }

  lemma PrunedTo(all: seq<NetworkAddress>, keep: nat, n: nat)
    requires n <= |all| && |all| - n <= keep && (n > 0 ==> |all| - n >= keep)
    ensures all[n..] == Newest(all, keep) && all[..n] == Dropped(all, keep)
  {
  }

  lemma MinusNext(m: Backward, all: seq<NetworkAddress>, n: nat)
    requires n < |all|
    ensures m - Elems(all[..n]) - {all[n]} == m - Elems(all[..n + 1])
  {
  }

  lemma NoneDropped(all: seq<NetworkAddress>)
    ensures Elems(all[..0]) == {}
  {
  }

  lemma IndexedAt(list: seq<Node>, index: map<NetworkAddress, nat>, next: nat, k: nat, x: NetworkAddress)
    requires Indexed(list, index, next) && x in index && k < |list| && list[k].id == index[x]
    ensures list[k].remote == x
  {
  }

  lemma EmptyIndexed()
    ensures Indexed([], map[], 0)
  {
  }

  lemma NodeOf(list: seq<Node>, index: map<NetworkAddress, nat>, next: nat, x: NetworkAddress)
    requires Indexed(list, index, next) && x in index
    ensures exists i :: 0 <= i < |list| && list[i].id == index[x]
  {
  }

  lemma AbsentWithout(list: seq<Node>, index: map<NetworkAddress, nat>, next: nat, x: NetworkAddress)
    requires Indexed(list, index, next) && x !in index
    ensures Without(Remotes(list), x) == Remotes(list)
  {
    hide Without;
    assert x !in Elems(Remotes(list));
    WithoutAbsent(Remotes(list), x);
  }

  const TOP4: nat := 0xffff_ffff
  const TOP6: nat := 0xffff_ffff_ffff_ffff_ffff_ffff_ffff_ffff

  lemma RangeStarts(n: LocalNet)
    requires NetOk(n)
    ensures n.base <= n.net.ip && n.base <= n.last
  {
  }

  lemma OwnInNet(n: LocalNet, me: NetworkAddress)
    requires NetOk(n)
    ensures AllInNet(n, map[][n.net.ip := me])
  {
  }

  lemma EnterInNet(n: LocalNet, f: Forward, ip: nat, remote: NetworkAddress)
    requires n.net.mask <= n.width
    ensures AllInNet(n, f) && Contains(n.width, n.net, ip) ==> AllInNet(n, f[ip := remote])
  {
  }

  /** A free address can be entered, and with our own in range keeps the map inside the network. */
  lemma FreeInNet(n: LocalNet, f: Forward, curr: nat, end: nat, ip: nat, remote: NetworkAddress)
    requires NetOk(n) && NextFree(f, n.base, curr, end, n.last, ip) && n.base <= curr
    ensures ip !in f && n.base < ip
    ensures curr <= n.last && end == n.last ==> ip <= n.last && Contains(n.width, n.net, ip)
    ensures curr <= n.last && end == n.last && AllInNet(n, f) ==> AllInNet(n, f[ip := remote])
  {
    hide Contains;
  }

  // ----- every run -----

  datatype Call = CallMap4(remote: NetworkAddress) | CallMap6(remote: NetworkAddress) | CallExpire(remote: NetworkAddress)

  /** What a call amounts to for the IPv4 map, given whether it succeeded: one operation or none. */
  function Op4(call: Call, done: bool): seq<Op> {
    match call
    case CallMap4(x) => if done then [Op.Map(x)] else []
    case CallMap6(_) => []
    case CallExpire(x) => [Op.Expire(x)]
  }

  function Op6(call: Call, done: bool): seq<Op> {
    match call
    case CallMap4(_) => []
    case CallMap6(x) => if done then [Op.Map(x)] else []
    case CallExpire(x) => [Op.Expire(x)]
  }

  function Ops(op: (Call, bool) -> seq<Op>, calls: seq<Call>, ok: seq<bool>): seq<Op>
    requires |ok| == |calls|
  {
    if calls == [] then []
    else
      var n := |calls| - 1;
      Ops(op, calls[..n], ok[..n]) + op(calls[n], ok[n])
  }

  lemma OpsGrow(op: (Call, bool) -> seq<Op>, calls: seq<Call>, ok: seq<bool>, call: Call, done: bool)
    requires |ok| == |calls|
    ensures Ops(op, calls + [call], ok + [done]) == Ops(op, calls, ok) + op(call, done)
  {
    assert (calls + [call])[..|calls|] == calls && (ok + [done])[..|ok|] == ok;
  }

  function Apply(keep: nat, s: State, ops: seq<Op>): State {
    if |ops| == 1 then Step(keep, s, ops[0]) else s
  }

  lemma RunGrows(keep: nat, start: set<NetworkAddress>, h: seq<Op>, ops: seq<Op>)
    requires |ops| <= 1
    ensures Run(keep, start, h + ops) == Apply(keep, Run(keep, start, h), ops)
  {
    if |ops| == 1 {
      assert ops == [ops[0]];
      RunStep(keep, start, h, ops[0]);
    } else {
      assert h + ops == h;
    }
  }

  /**
   Whatever is called and in whatever order, the address book stays consistent, no insertion
   clashes, and for each family the remotes mapped and remembered are those of the history of
   successful calls, so that ExpiredCache says of every one whether it still has its address.
   */
  method Replay(t: TunEndpoint, calls: seq<Call>) returns (ok: seq<bool>)
    requires t.Valid() && t.expired == []
    modifies t, t.map4, t.map6, t.it4, t.it6
    ensures t.Valid() && |ok| == |calls|
    ensures t.View(t.map4) == Run(t.keep, old(t.map4.remoteToLocal.Keys), Ops(Op4, calls, ok))
    ensures t.View(t.map6) == Run(t.keep, old(t.map6.remoteToLocal.Keys), Ops(Op6, calls, ok))
  {
    hide Inverse, NetOk, Contains, AllInNet, Value, Indexed, NextFree, AllMapped, Step, Run, Ops, Op4, Op6;
    hide Elems, Dropped, Touch;
    ok := [];
    ghost var start4, start6 := t.map4.remoteToLocal.Keys, t.map6.remoteToLocal.Keys;
    NothingYet(t.keep, start4);
    NothingYet(t.keep, start6);
    assert calls[..0] == [];
    for i := 0 to |calls|
      invariant t.Valid() && |ok| == i
      invariant t.View(t.map4) == Run(t.keep, start4, Ops(Op4, calls[..i], ok))
      invariant t.View(t.map6) == Run(t.keep, start6, Ops(Op6, calls[..i], ok))
    {
      assert calls[..i + 1] == calls[..i] + [calls[i]];
      var done := MakeCall(t, calls[i]);
      OpsGrow(Op4, calls[..i], ok, calls[i], done);
      OpsGrow(Op6, calls[..i], ok, calls[i], done);
      OneOp(calls[i], done);
      RunGrows(t.keep, start4, Ops(Op4, calls[..i], ok), Op4(calls[i], done));
      RunGrows(t.keep, start6, Ops(Op6, calls[..i], ok), Op6(calls[i], done));
      ok := ok + [done];
    }
    assert calls[..|calls|] == calls;
  }

  method MakeCall(t: TunEndpoint, call: Call) returns (done: bool)
    requires t.Valid()
    modifies t, t.map4, t.map6, t.it4, t.it6
    ensures t.Valid()
    ensures t.View(t.map4) == Apply(t.keep, old(t.View(t.map4)), Op4(call, done))
    ensures t.View(t.map6) == Apply(t.keep, old(t.View(t.map6)), Op6(call, done))
  {
    hide Inverse, NetOk, Contains, AllInNet, Value, Indexed, NextFree, AllMapped, Step, Elems, Dropped, Touch;
    match call {
      case CallMap4(x) =>
        var r := t.Map4(x);
        done := r.Some?;
      case CallMap6(x) =>
        var r := t.Map6(x);
        done := r.Some?;
      case CallExpire(x) =>
        t.Expire(x);
        done := true;
    }
  }

  lemma OneOp(call: Call, done: bool)
    ensures |Op4(call, done)| <= 1 && |Op6(call, done)| <= 1
  {
  }

  lemma NothingYet(keep: nat, start: set<NetworkAddress>)
    ensures Ops(Op4, [], []) == [] && Ops(Op6, [], []) == []
    ensures Run(keep, start, []) == State(start, [])
  {
  }
}
