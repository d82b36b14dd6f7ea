/**
 The IPv6 address that src/handlers/tun.cpp derives from a remote's public key: the host bytes of
 the local network's address, filled from the front of the key.
 */
module KeyAddresses {
  import opened WireBytes
  import opened RouterIds
  import opened Bits
  import opened IpNets

  /** An IPv6 address as its 16 bytes, most significant first: the words hi and lo. */
  type Ipv6 = b: Bytes | |b| == 16 witness seq(16, _ => 0 as byte)
  type Word = b: Bytes | |b| == 8 witness seq(8, _ => 0 as byte)

  /** The bitwise OR of the low n bits. */
  function OrBits(a: nat, b: nat, n: nat): (r: nat)
    ensures r < Pow2(n)
    decreases n
  {
    if n == 0 then 0
    else (if a % 2 == 1 || b % 2 == 1 then 1 else 0) + 2 * OrBits(a / 2, b / 2, n - 1)
  }

  function OrByte(a: byte, b: byte): byte {
    EightBits();
    OrBits(a, b, 8)
  }

  lemma {:induction false} OrBitsZero(a: nat, n: nat)
    requires a < Pow2(n)
    ensures OrBits(a, 0, n) == a && OrBits(0, a, n) == a
    decreases n
  {
    if n > 0 {
      OrBitsZero(a / 2, n - 1);
    }
  }

  function Or(a: Word, b: Word): Word {
    seq(8, i requires 0 <= i < 8 => OrByte(a[i], b[i]))
  }

  /** Bytes copied to the low end of a zero word. */
  function LowBytes(b: Bytes): Word
    requires |b| <= 8
  {
    seq(8 - |b|, _ => 0 as byte) + b
  }

  function HighWord(hi: Word, bytes: nat, rid: RouterId): Word
    requires bytes <= 16
  {
    if bytes > 8 then Or(hi, LowBytes(rid[..bytes - 8])) else hi
  }

  function LowWord(lo: Word, bytes: nat, rid: RouterId): Word
    requires bytes <= 16
  {
    if bytes >= 8 then rid[bytes - 8..bytes] else Or(lo, LowBytes(rid[..bytes]))
  }

  /** The address tried first for a key. */
  function FromKey(ip: Ipv6, mask: nat, rid: RouterId): Ipv6
    requires mask <= 128
  {
    var bytes := (128 - mask) / 8;
    HighWord(ip[..8], bytes, rid) + LowWord(ip[8..], bytes, rid)
  }

  /** The number an address stands for. */
  function Value(b: Bytes): nat {
    if b == [] then 0 else Value(b[..|b| - 1]) * 256 + b[|b| - 1]
  }

  lemma OrZero(a: byte)
    ensures OrByte(a, 0) == a && OrByte(0, a) == a
  {
    hide OrBits;
    EightBits();
    OrBitsZero(a, 8);
  }

  /** The words keep the bytes above those filled in. */
  lemma OrKeeps(a: Word, b: Bytes)
    requires |b| <= 8
    ensures Or(a, LowBytes(b))[..8 - |b|] == a[..8 - |b|]
  {
    hide OrByte;
    forall i | 0 <= i < 8 - |b|
      ensures Or(a, LowBytes(b))[i] == a[i]
    {
      OrZero(a[i]);
    }
  }

  lemma NetworkBytesKept(ip: Ipv6, mask: nat, rid: RouterId)
    requires mask <= 128
    ensures FromKey(ip, mask, rid)[..16 - (128 - mask) / 8] == ip[..16 - (128 - mask) / 8]
  {
    hide Or, LowBytes;
    var bytes := (128 - mask) / 8;
    var hi: Word, lo: Word := ip[..8], ip[8..];
    assert ip == hi + lo;
    if bytes > 8 {
      OrKeeps(hi, rid[..bytes - 8]);
    } else if bytes < 8 {
      OrKeeps(lo, rid[..bytes]);
      var low := Or(lo, LowBytes(rid[..bytes]));
      assert (hi + low)[..16 - bytes] == hi + low[..8 - bytes];
      assert (hi + lo)[..16 - bytes] == hi + lo[..8 - bytes];
    }
  }

  /** Shifting out whole bytes leaves the bytes above. */
  lemma {:induction false} ShrBytes(b: Bytes, n: nat)
    requires n <= |b|
    ensures Shr(Value(b), 8 * n) == Value(b[..|b| - n])
    decreases n
  {
    if n == 0 {
      assert b[..|b|] == b;
    } else {
      var front := b[..|b| - 1];
      ShrLastByte(b, front, 8 * (n - 1));
      hide Shr, Value;
      ShrBytes(front, n - 1);
      assert front[..|front| - (n - 1)] == b[..|b| - n];
      assert 8 + 8 * (n - 1) == 8 * n;
    }
  }

  lemma ShrLastByte(b: Bytes, front: Bytes, more: nat)
    requires b != [] && front == b[..|b| - 1]
    ensures Shr(Value(b), 8 + more) == Shr(Value(front), more)
  {
    hide Shr;
    ShrAdd(Value(b), 8, more);
    ShrByte(Value(front), b[|b| - 1]);
  }

  lemma ShrByte(v: nat, x: byte)
    ensures Shr(v * 256 + x, 8) == v
  {
    hide Shr;
    EightBits();
    ShrHigh(v, 8, x);
  }

  /** For every mask, the derived address lies in the local network. */
  lemma FromKeyInNet(ip: Ipv6, mask: nat, rid: RouterId)
    requires mask <= 128
    ensures Contains(128, Net(Value(ip), mask), Value(FromKey(ip, mask, rid)))
  {
    hide Shr, Value, FromKey;
    var bytes := (128 - mask) / 8;
    NetworkBytesKept(ip, mask, rid);
    ShrBytes(ip, bytes);
    ShrBytes(FromKey(ip, mask, rid), bytes);
    ShorterPrefix(128, mask, 128 - 8 * bytes, Value(ip), Value(FromKey(ip, mask, rid)));
  }

  /** Where the key's bytes go: in order from the first host byte, over a zero or a full byte. */
  lemma KeyBytes(ip: Ipv6, mask: nat, rid: RouterId, j: nat)
    requires mask <= 128 && 16 - (128 - mask) / 8 <= j < 16
    ensures
      var bytes := (128 - mask) / 8;
      var k := j - (16 - bytes);
      FromKey(ip, mask, rid)[j] == if bytes >= 8 && j >= 8 then rid[k] else OrByte(ip[j], rid[k])
  {
    hide OrByte;
    var bytes := (128 - mask) / 8;
    var hi: Word, lo: Word := ip[..8], ip[8..];
    if j < 8 {
      assert FromKey(ip, mask, rid)[j] == Or(hi, LowBytes(rid[..bytes - 8]))[j];
    } else if bytes < 8 {
      assert FromKey(ip, mask, rid)[j] == Or(lo, LowBytes(rid[..bytes]))[j - 8];
    }
  }

  /** In a network whose own host bytes are zero, keys that differ in the bytes used never collide. */
  lemma KeyPrefixTells(ip: Ipv6, mask: nat, rid: RouterId, sid: RouterId)
    requires mask <= 128 && forall j :: 16 - (128 - mask) / 8 <= j < 16 ==> ip[j] == 0
    requires FromKey(ip, mask, rid) == FromKey(ip, mask, sid)
    ensures rid[..(128 - mask) / 8] == sid[..(128 - mask) / 8]
  {
    hide OrByte, FromKey;
    var bytes := (128 - mask) / 8;
    forall k | 0 <= k < bytes
      ensures rid[k] == sid[k]
    {
      KeyBytes(ip, mask, rid, k + (16 - bytes));
      KeyBytes(ip, mask, sid, k + (16 - bytes));
      OrZero(rid[k]);
      OrZero(sid[k]);
    }
  }
}
