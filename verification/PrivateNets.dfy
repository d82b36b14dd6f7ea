/**
 The search for a private network clear of those in use: find_private_ipv4_net and
 find_private_ipv6_net of src/address/ip_range.cpp.
 */
module PrivateNets {
  import opened WireBytes
  import opened Bits
  import opened IpNets

  // ----- blocks by number -----

  /** The q-th block of a mask length, at its first usable address. */
  function Block(width: nat, mask: nat, q: nat): (n: Net)
    requires mask <= width
    ensures n.mask == mask
  {
    Net(q * Pow2(width - mask) + 1, mask)
  }

  lemma BlockPrefix(width: nat, mask: nat, q: nat)
    requires mask < width
    ensures Prefix(width, mask, Block(width, mask, q).ip) == q
  {
    var k := width - mask;
    assert 1 < Pow2(k);
    ShrHigh(q, k, 1);
  }

  /** The test the search makes of a candidate: neither address lies in the other network. */
  predicate Clear(width: nat, n: Net, exclude: seq<Net>)
    requires n.mask <= width && forall e :: e in exclude ==> e.mask <= width
  {
    forall e :: e in exclude ==> !Contains(width, e, n.ip) && !Contains(width, n, e.ip)
  }

  /** The two point tests find every overlap. */
  lemma ClearMeansDisjoint(width: nat, n: Net, exclude: seq<Net>)
    requires n.mask <= width && forall e :: e in exclude ==> e.mask <= width
    ensures Clear(width, n, exclude) <==> forall e :: e in exclude ==> !Overlap(width, n, e)
  {
    hide Contains, Overlap;
    forall e | e in exclude
      ensures Overlap(width, n, e) <==> Contains(width, n, e.ip) || Contains(width, e, n.ip)
    {
      TwoPointTest(width, n, e);
    }
  }

  /** Networks with the same mask and prefix are the same block. */
  lemma SameBlock(width: nat, a: Net, b: Net, e: Net)
    requires a.mask == b.mask <= width && e.mask <= width
    requires Prefix(width, a.mask, a.ip) == Prefix(width, b.mask, b.ip)
    ensures Overlap(width, a, e) <==> Overlap(width, b, e)
  {
  }

  /** The blocks of a longer mask inside the p-th block of a shorter one. */
  lemma BlocksInside(width: nat, short: nat, mask: nat, p: nat, x: nat)
    requires short <= mask <= width
    ensures Prefix(width, short, x) == p <==>
              p * Pow2(mask - short) <= Prefix(width, mask, x) < (p + 1) * Pow2(mask - short)
  {
    hide Shr;
    var k := mask - short;
    var q := Prefix(width, mask, x);
    ShrAdd(x, width - mask, k);
    assert width - mask + k == width - short;
    var r := ShrLow(q, k);
    var s := Shr(q, k);
    assert s == Prefix(width, short, x);
    QuotientBounds(s, Pow2(k), r, p);
  }

  lemma QuotientBounds(s: nat, m: nat, r: nat, p: nat)
    requires r < m
    ensures p * m <= s * m + r < (p + 1) * m <==> s == p
  {
    if s < p {
      assert (s + 1) * m <= p * m;
    } else if s > p {
      assert (p + 1) * m <= s * m;
    }
  }

  // ----- IPv4 -----

  /** Of the blocks numbered from `first`, none before the q-th is clear. */
  ghost predicate NoneBefore(width: nat, mask: nat, first: nat, q: nat, exclude: seq<Net>)
    requires mask <= width && forall e :: e in exclude ==> e.mask <= width
  {
    forall i: nat :: first <= i < q ==> !Clear(width, Block(width, mask, i), exclude)
  }

  /** find_ipv4_net: from `start` in steps of a block, all within 32 bits. */
  method FindIpv4Net(start: nat, end: nat, mask: nat, exclude: seq<Net>, ghost first: nat, ghost last: nat)
    returns (r: Option<Net>)
    requires 1 <= mask < 32 && forall e :: e in exclude ==> e.mask <= 32
    requires start == first * Pow2(32 - mask) && end == last * Pow2(32 - mask) && first <= last
    requires end + Pow2(32 - mask) <= 0x1_0000_0000
    ensures r.Some? ==> r.value.mask == mask && Clear(32, r.value, exclude)
    ensures r.Some? ==> exists q: nat :: first <= q < last && r.value == Block(32, mask, q)
                                         && NoneBefore(32, mask, first, q, exclude)
    ensures r.None? ==> NoneBefore(32, mask, first, last, exclude)
  {
    hide Clear, Pow2;
    var step := Pow2(32 - mask);
    assert step > 1 by {
      OneBit(32 - mask);
    }
    var addr := start + 1;
    ghost var q := first;
    while addr < end
      invariant first <= q <= last && addr == q * step + 1
      invariant NoneBefore(32, mask, first, q, exclude)
      decreases last - q
    {
      BelowEnd(q, last, step);
      var net := Net(addr, mask);
      if Clear(32, net, exclude) {
        assert net == Block(32, mask, q);
        return Some(net);
      }
      NextBlock(q, step);
      addr := (addr + step) % 0x1_0000_0000;
      q := q + 1;
      assert addr == q * step + 1 by {
        NextFits(q, last, step);
      }
    }
    AtEnd(q, last, step);
    return None;
  }

  lemma OneBit(k: nat)
    requires k >= 1
    ensures Pow2(k) > 1
  {
  }

  lemma BelowEnd(q: nat, last: nat, step: nat)
    requires q * step + 1 < last * step
    ensures q < last
  {
  }

  lemma AtEnd(q: nat, last: nat, step: nat)
    requires q <= last && q * step + 1 >= last * step && step > 1
    ensures q == last
  {
  }

  lemma NextBlock(q: nat, step: nat)
    ensures (q + 1) * step == q * step + step
  {
  }

  lemma NextFits(q: nat, last: nat, step: nat)
    requires q <= last && last * step + step <= 0x1_0000_0000 && step > 1
    ensures q * step + 1 < 0x1_0000_0000
  {
  }

  // ----- what a search tells -----

  /** Every block of this mask length in the range meets a network in use. */
  ghost predicate Taken(width: nat, mask: nat, range: Net, exclude: seq<Net>)
    requires range.mask <= mask <= width && forall e :: e in exclude ==> e.mask <= width
  {
    forall b: Net :: b.mask == mask && Contains(width, range, b.ip) ==> Meets(width, b, exclude)
  }

  ghost predicate Meets(width: nat, b: Net, exclude: seq<Net>)
    requires b.mask <= width && forall e :: e in exclude ==> e.mask <= width
  {
    exists e :: e in exclude && Overlap(width, b, e)
  }

  /** The p-th block of a mask length, as a range. */
  function Range(width: nat, short: nat, p: nat): Net
    requires short <= width
  {
    Net(p * Pow2(width - short), short)
  }

  lemma InRange(width: nat, short: nat, mask: nat, p: nat, x: nat)
    requires short <= mask <= width
    ensures Contains(width, Range(width, short, p), x) <==>
              p * Pow2(mask - short) <= Prefix(width, mask, x) < (p + 1) * Pow2(mask - short)
  {
    hide Shr, Pow2;
    BlocksInside(width, short, mask, p, x);
    ShrHigh(p, width - short, 0);
  }

  /** Every block of this mask length in the range below the address meets a network in use. */
  ghost predicate TakenBelow(width: nat, mask: nat, range: Net, ip: nat, exclude: seq<Net>)
    requires range.mask <= mask <= width && forall e :: e in exclude ==> e.mask <= width
  {
    forall b: Net :: b.mask == mask && Contains(width, range, b.ip) && Prefix(width, mask, b.ip) < Prefix(width, mask, ip)
                     ==> Meets(width, b, exclude)
  }

  lemma UnclearMeets(width: nat, b: Net, exclude: seq<Net>)
    requires b.mask < width && forall e :: e in exclude ==> e.mask <= width
    requires !Clear(width, Block(width, b.mask, Prefix(width, b.mask, b.ip)), exclude)
    ensures Meets(width, b, exclude)
  {
    hide Contains, Overlap, Clear, Block, Pow2, Prefix;
    var q := Prefix(width, b.mask, b.ip);
    BlockPrefix(width, b.mask, q);
    ClearMeansDisjoint(width, Block(width, b.mask, q), exclude);
    var e :| e in exclude && Overlap(width, Block(width, b.mask, q), e);
    SameBlock(width, Block(width, b.mask, q), b, e);
  }

  /** A search that has passed over the blocks before the q-th shows those of the range below it taken. */
  lemma NoneBelow(width: nat, short: nat, mask: nat, p: nat, q: nat, exclude: seq<Net>)
    requires short <= mask < width && forall e :: e in exclude ==> e.mask <= width
    requires NoneBefore(width, mask, p * Pow2(mask - short), q, exclude)
    ensures TakenBelow(width, mask, Range(width, short, p), Block(width, mask, q).ip, exclude)
  {
    hide Contains, Overlap, Clear, Block, Pow2, Prefix, Meets;
    var range := Range(width, short, p);
    BlockPrefix(width, mask, q);
    forall b: Net | b.mask == mask && Contains(width, range, b.ip) && Prefix(width, mask, b.ip) < q
      ensures Meets(width, b, exclude)
    {
      InRange(width, short, mask, p, b.ip);
      UnclearMeets(width, b, exclude);
    }
  }

  /** A search that found no clear block shows that the whole range is taken. */
  lemma NoneClear(width: nat, short: nat, mask: nat, p: nat, exclude: seq<Net>)
    requires short <= mask < width && forall e :: e in exclude ==> e.mask <= width
    requires NoneBefore(width, mask, p * Pow2(mask - short), (p + 1) * Pow2(mask - short), exclude)
    ensures Taken(width, mask, Range(width, short, p), exclude)
  {
    hide Contains, Overlap, Clear, Block, Pow2, Prefix, Meets;
    var range := Range(width, short, p);
    forall b: Net | b.mask == mask && Contains(width, range, b.ip)
      ensures Meets(width, b, exclude)
    {
      InRange(width, short, mask, p, b.ip);
      UnclearMeets(width, b, exclude);
    }
  }

  /** The network handed out for a clear block: inside the range, apart from all in use. */
  ghost predicate Fit(width: nat, n: Net, range: Net, exclude: seq<Net>)
    requires n.mask <= width && range.mask <= width && forall e :: e in exclude ==> e.mask <= width
  {
    Inside(width, n, range) && forall e :: e in exclude ==> !Overlap(width, n, e)
  }

  /** A clear block yields a fit network of any longer mask, and shows the range is not taken. */
  lemma FoundFits(width: nat, short: nat, mask: nat, want: nat, p: nat, q: nat, exclude: seq<Net>)
    requires short <= mask <= want <= width && mask < width && forall e :: e in exclude ==> e.mask <= width
    requires p * Pow2(mask - short) <= q < (p + 1) * Pow2(mask - short)
    requires Clear(width, Block(width, mask, q), exclude)
    ensures Fit(width, Net(Block(width, mask, q).ip, want), Range(width, short, p), exclude)
    ensures !Taken(width, mask, Range(width, short, p), exclude)
  {
    hide Overlap, Clear, Block, Pow2, Prefix, Inside;
    var block, range := Block(width, mask, q), Range(width, short, p);
    BlockPrefix(width, mask, q);
    InRange(width, short, mask, p, block.ip);
    ClearMeansDisjoint(width, block, exclude);
    assert !Meets(width, block, exclude);
    var n := Net(block.ip, want);
    InsideIf(width, n, range);
    InsideIf(width, n, block);
    forall e | e in exclude
      ensures !Overlap(width, n, e)
    {
      InsideDisjoint(width, n, block, e);
    }
  }

  /** One private range, searched whole: a clear block of it, or the knowledge that it is taken. */
  method SearchRange4(start: nat, end: nat, mask: nat, exclude: seq<Net>, ghost short: nat, ghost p: nat)
    returns (r: Option<Net>)
    requires 1 <= short <= mask <= 18 && forall e :: e in exclude ==> e.mask <= 32
    requires start == p * Pow2(32 - short) && end == (p + 1) * Pow2(32 - short)
    requires end + Pow2(32 - short) <= 0x1_0000_0000
    ensures r.None? <==> Taken(32, mask, Range(32, short, p), exclude)
    ensures r.Some? ==> r.value.mask == mask && exists q: nat :: r.value == Block(32, mask, q)
    ensures r.Some? ==> TakenBelow(32, mask, Range(32, short, p), r.value.ip, exclude)
    ensures r.Some? ==> forall want: nat :: mask <= want <= 32 ==>
                          Fit(32, r.value.(mask := want), Range(32, short, p), exclude)
  {
    hide Clear, Pow2, Taken, TakenBelow, Fit, Block, NoneBefore;
    ghost var inner := Pow2(mask - short);
    ghost var step := Pow2(32 - mask);
    SplitPow(short, mask, p);
    r := FindIpv4Net(start, end, mask, exclude, p * inner, (p + 1) * inner);
    if r.Some? {
      ghost var q: nat :| p * inner <= q < (p + 1) * inner && r.value == Block(32, mask, q)
                          && NoneBefore(32, mask, p * inner, q, exclude);
      NoneBelow(32, short, mask, p, q, exclude);
      forall want: nat | mask <= want <= 32
        ensures Fit(32, r.value.(mask := want), Range(32, short, p), exclude)
      {
        FoundFits(32, short, mask, want, p, q, exclude);
      }
      FoundFits(32, short, mask, mask, p, q, exclude);
    } else {
      NoneClear(32, short, mask, p, exclude);
    }
  }

  lemma SplitPow(short: nat, mask: nat, p: nat)
    requires short <= mask <= 32
    ensures p * Pow2(32 - short) == (p * Pow2(mask - short)) * Pow2(32 - mask)
    ensures (p + 1) * Pow2(32 - short) == ((p + 1) * Pow2(mask - short)) * Pow2(32 - mask)
    ensures p * Pow2(mask - short) <= (p + 1) * Pow2(mask - short)
    ensures Pow2(32 - mask) <= Pow2(32 - short)
  {
    hide Pow2;
    Pow2Add(mask - short, 32 - mask);
    var inner, step := Pow2(mask - short), Pow2(32 - mask);
    assert mask - short + (32 - mask) == 32 - short;
    MulAssoc(p, inner, step);
    MulAssoc(p + 1, inner, step);
    Scale(1, inner, step);
    Scale(p, p + 1, inner);
  }

  /** The private ranges of RFC 1918, in the order they are searched. */
  const PRIVATE_IPV4: seq<Net> := [Net(0xAC10_0000, 12), Net(0x0A00_0000, 8), Net(0xC0A8_0000, 16)]

  /**
   The i-th private range is the first, of those large enough, with a block left at the search
   length, and the network is in the lowest such block of it.
   */
  ghost predicate FirstFit(n: Net, search: nat, i: nat, exclude: seq<Net>)
    requires n.mask <= 32 && search <= 32 && forall e :: e in exclude ==> e.mask <= 32
  {
    && i < 3 && PRIVATE_IPV4[i].mask <= search && Fit(32, n, PRIVATE_IPV4[i], exclude)
    && TakenBelow(32, search, PRIVATE_IPV4[i], n.ip, exclude)
    && forall j :: 0 <= j < i && PRIVATE_IPV4[j].mask <= search ==> Taken(32, search, PRIVATE_IPV4[j], exclude)
  }

  function Min(a: nat, b: nat): nat {
    if a < b then a else b
  }

  lemma PrivateRanges()
    ensures Pow2(20) == 0x10_0000 && Pow2(24) == 0x100_0000 && Pow2(16) == 0x1_0000
    ensures Range(32, 12, 2753) == PRIVATE_IPV4[0]
    ensures Range(32, 8, 10) == PRIVATE_IPV4[1]
    ensures Range(32, 16, 49320) == PRIVATE_IPV4[2]
  {
    assert Pow2(4) == 16;
    Pow2Add(4, 4);
    Pow2Add(8, 8);
    Pow2Add(16, 4);
    Pow2Add(16, 8);
  }

  /**
   find_private_ipv4_net: a private network apart from every one in use, or none exactly when
   each private range large enough has no block left at the search length.
   */
  method FindPrivateIpv4Net(exclude: seq<Net>, mask: nat) returns (r: Option<Net>)
    requires mask <= 32 && forall e :: e in exclude ==> e.mask <= 32
    ensures r.Some? ==> r.value.mask == mask && exists i: nat :: FirstFit(r.value, Min(18, mask), i, exclude)
    ensures r.Some? ==> exists q: nat :: r.value.ip == Block(32, Min(18, mask), q).ip
    ensures r.None? <==>
              forall i :: 0 <= i < 3 && PRIVATE_IPV4[i].mask <= mask ==>
                            Taken(32, Min(18, mask), PRIVATE_IPV4[i], exclude)
  {
    hide Taken, TakenBelow, Fit, Block, Pow2, Range;
    if mask < 8 {
      return None;
    }
    PrivateRanges();
    var searchMask := Min(18, mask);
    r := None;
    if mask >= 12 {
      r := SearchRange4(0xAC10_0000, 0xAC20_0000, searchMask, exclude, 12, 2753);
      assert r.Some? ==> FirstFit(r.value.(mask := mask), searchMask, 0, exclude);
    }
    if r.None? && mask >= 8 {
      r := SearchRange4(0x0A00_0000, 0x0B00_0000, searchMask, exclude, 8, 10);
      assert r.Some? ==> FirstFit(r.value.(mask := mask), searchMask, 1, exclude);
    }
    if r.None? && mask >= 16 {
      r := SearchRange4(0xC0A8_0000, 0xC0A9_0000, searchMask, exclude, 16, 49320);
      assert r.Some? ==> FirstFit(r.value.(mask := mask), searchMask, 2, exclude);
    }
    if r.Some? {
      r := Some(r.value.(mask := mask));
    }
  }

  // ----- IPv6 -----

  /** fd2e:7365:7368::/48, whose fourth group is the subnet number. */
  const ULA_PREFIX: nat := 0xfd2e_7365_7368

  lemma UlaAddresses(n: Net, exclude: seq<Net>)
    requires n.mask <= 128 && forall e :: e in exclude ==> e.mask <= 128
    requires Fit(128, n, UlaNet(), exclude)
    ensures Shr(n.ip, 80) == 0xfd2e_7365_7368
  {
    hide Shr, Pow2, Overlap;
    assert Contains(128, n, n.ip);
    ShrHigh(0xfd2e_7365_7368, 80, 0);
  }

  function UlaNet(): Net {
    Range(128, 48, ULA_PREFIX)
  }

  function SubnetIp(subnet: nat): nat {
    ULA_PREFIX * Pow2(80) + subnet * Pow2(64) + 1
  }

  /** Stepping the subnet number steps through the blocks of the search length. */
  lemma SubnetBlock(mask: nat, i: nat)
    requires 48 <= mask <= 64
    ensures Net(SubnetIp(i * Pow2(64 - mask)), mask) == Block(128, mask, ULA_PREFIX * Pow2(mask - 48) + i)
  {
    hide Pow2;
    Pow2Add(64 - mask, 64);
    Pow2Add(mask - 48, 128 - mask);
    assert 64 - mask + 64 == 128 - mask && mask - 48 + (128 - mask) == 80;
    MulAssoc(i, Pow2(64 - mask), Pow2(64));
    BlockSum(ULA_PREFIX, Pow2(mask - 48), i, Pow2(128 - mask));
  }

  lemma BlockSum(p: nat, inner: nat, i: nat, step: nat)
    ensures (p * inner + i) * step == p * (inner * step) + i * step
  {
  }

  /** A network in use that is no longer than the range and holds its first address takes it all. */
  lemma AllUnavailable(mask: nat, exclude: seq<Net>, e: Net)
    requires 48 <= mask <= 128 && forall x :: x in exclude ==> x.mask <= 128
    requires e in exclude && e.mask <= 48 && Contains(128, e, SubnetIp(0))
    ensures Taken(128, mask, UlaNet(), exclude)
  {
    hide Pow2, Shr, Overlap, Inside;
    var first := SubnetIp(0);
    OneBit(80);
    ShrHigh(ULA_PREFIX, 80, 0);
    ShrHigh(ULA_PREFIX, 80, 1);
    assert Prefix(128, 48, UlaNet().ip) == Prefix(128, 48, first);
    forall b: Net | b.mask == mask && Contains(128, UlaNet(), b.ip)
      ensures Meets(128, b, exclude)
    {
      ShorterPrefix(128, e.mask, 48, first, b.ip);
      TwoPointTest(128, b, e);
    }
  }

  /** find_private_ipv6_net. */
  method FindPrivateIpv6Net(exclude: seq<Net>, mask: nat) returns (r: Option<Net>)
    requires mask <= 128 && forall e :: e in exclude ==> e.mask <= 128
    ensures r.Some? ==> r.value.mask == mask && Fit(128, r.value, UlaNet(), exclude)
    ensures r.Some? ==> Shr(r.value.ip, 80) == 0xfd2e_7365_7368
    ensures r.Some? ==> 48 <= mask && TakenBelow(128, Min(64, mask), UlaNet(), r.value.ip, exclude)
    ensures r.Some? ==> exists subnet: nat :: subnet <= 0xffff && r.value.ip == SubnetIp(subnet)
    ensures r.None? <==> (48 <= mask ==> Taken(128, Min(64, mask), UlaNet(), exclude))
  {
    hide Pow2, Clear, Taken, TakenBelow, Fit, Block, Contains, SubnetIp, NoneBefore;
    if mask < 48 {
      return None;
    }
    var searchMask := Min(64, mask);
    if e :| e in exclude && e.mask <= 48 && Contains(128, e, SubnetIp(0)) {
      AllUnavailable(searchMask, exclude, e);
      return None;
    }
    var step := Pow2(64 - searchMask);
    ghost var count := Pow2(searchMask - 48);
    ghost var base := ULA_PREFIX * count;
    assert count * step == 0x1_0000 by {
      Pow2Add(searchMask - 48, 64 - searchMask);
      PrivateRanges();
    }
    var subnet := 0;
    ghost var i := 0;
    NoBlocks(128, searchMask, base, exclude);
    while subnet <= 0xffff
      invariant i <= count && subnet == i * step
      invariant NoneBefore(128, searchMask, base, base + i, exclude)
      decreases count - i
    {
      assert i < count by {
        BelowCount(i, count, step);
      }
      SubnetBlock(searchMask, i);
      var candidate := Net(SubnetIp(subnet), searchMask);
      if Clear(128, candidate, exclude) {
        NextBlock(ULA_PREFIX, count);
        FoundFits(128, 48, searchMask, mask, ULA_PREFIX, base + i, exclude);
        NoneBelow(128, 48, searchMask, ULA_PREFIX, base + i, exclude);
        UlaAddresses(Net(candidate.ip, mask), exclude);
        return Some(Net(candidate.ip, mask));
      }
      NextBlock(i, step);
      OneMore(128, searchMask, base, base + i, exclude);
      subnet := subnet + step;
      i := i + 1;
    }
    assert i == count by {
      PastCount(i, count, step);
    }
    NextBlock(ULA_PREFIX, count);
    NoneClear(128, 48, searchMask, ULA_PREFIX, exclude);
    return None;
  }

  lemma NoBlocks(width: nat, mask: nat, first: nat, exclude: seq<Net>)
    requires mask <= width && forall e :: e in exclude ==> e.mask <= width
    ensures NoneBefore(width, mask, first, first, exclude)
  {
  }

  lemma OneMore(width: nat, mask: nat, first: nat, q: nat, exclude: seq<Net>)
    requires mask <= width && forall e :: e in exclude ==> e.mask <= width
    requires NoneBefore(width, mask, first, q, exclude) && !Clear(width, Block(width, mask, q), exclude)
    ensures NoneBefore(width, mask, first, q + 1, exclude)
  {
  }

  lemma BelowCount(i: nat, count: nat, step: nat)
    requires i * step < count * step
    ensures i < count
  {
  }

  lemma PastCount(i: nat, count: nat, step: nat)
    requires i <= count && count * step <= i * step && step >= 1
    ensures i == count
  {
  }
}
