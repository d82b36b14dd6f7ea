/**
 Networks as a prefix of their addresses' bits, for IPv4 (32) and IPv6 (128), and the test for
 overlap that src/address/ip_range.cpp uses: each network's address in the other.
 */
module IpNets {
  import opened Bits

  /** An address of `width` bits and a mask length. */
  datatype Net = Net(ip: nat, mask: nat)

  /** The prefix of an address that a mask of this length keeps. */
  function Prefix(width: nat, mask: nat, x: nat): nat
    requires mask <= width
  {
    Shr(x, width - mask)
  }

  /** The address has the network's prefix. */
  predicate Contains(width: nat, n: Net, x: nat)
    requires n.mask <= width
  {
    Prefix(width, n.mask, n.ip) == Prefix(width, n.mask, x)
  }

  ghost predicate Overlap(width: nat, a: Net, b: Net)
    requires a.mask <= width && b.mask <= width
  {
    exists x: nat :: Contains(width, a, x) && Contains(width, b, x)
  }

  /** Addresses that agree on a longer prefix agree on a shorter one. */
  lemma ShorterPrefix(width: nat, short: nat, long: nat, x: nat, y: nat)
    requires short <= long <= width && Prefix(width, long, x) == Prefix(width, long, y)
    ensures Prefix(width, short, x) == Prefix(width, short, y)
  {
    hide Shr;
    ShrAdd(x, width - long, long - short);
    ShrAdd(y, width - long, long - short);
    assert width - long + (long - short) == width - short;
  }

  /** Blocks nest or are disjoint, so two membership tests decide overlap. */
  lemma TwoPointTest(width: nat, a: Net, b: Net)
    requires a.mask <= width && b.mask <= width
    ensures Overlap(width, a, b) <==> Contains(width, a, b.ip) || Contains(width, b, a.ip)
  {
    hide Prefix;
    assert Contains(width, a, a.ip) && Contains(width, b, b.ip);
    if Overlap(width, a, b) {
      var x: nat :| Contains(width, a, x) && Contains(width, b, x);
      if a.mask <= b.mask {
        ShorterPrefix(width, a.mask, b.mask, b.ip, x);
      } else {
        ShorterPrefix(width, b.mask, a.mask, a.ip, x);
      }
    }
  }

  /** Every address of `b` is an address of `n`. */
  ghost predicate Inside(width: nat, b: Net, n: Net)
    requires b.mask <= width && n.mask <= width
  {
    forall x: nat :: Contains(width, b, x) ==> Contains(width, n, x)
  }

  lemma InsideIf(width: nat, b: Net, n: Net)
    requires n.mask <= b.mask <= width && Contains(width, n, b.ip)
    ensures Inside(width, b, n)
  {
    hide Prefix;
    forall x: nat | Contains(width, b, x)
      ensures Contains(width, n, x)
    {
      ShorterPrefix(width, n.mask, b.mask, b.ip, x);
    }
  }

  /** What is disjoint from a network is disjoint from any part of it. */
  lemma InsideDisjoint(width: nat, b: Net, n: Net, e: Net)
    requires b.mask <= width && n.mask <= width && e.mask <= width
    requires Inside(width, b, n) && !Overlap(width, n, e)
    ensures !Overlap(width, b, e)
  {
  }
}
