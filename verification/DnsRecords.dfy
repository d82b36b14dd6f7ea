/**
 The two record kinds whose data src/dns/rr.cpp builds in a loop or by a size computed
 beforehand: TXT strings and SOA.
 */
module DnsRecords {
  import opened WireBytes
  import opened DnsNames
  import opened DnsMessage
  import opened DnsWriter
  import opened RawDns

  // ----- TXT -----

  /** The character-strings of TXT data, as section 3.3.14 of RFC 1035 lays them out. */
  function ReadStrings(b: Bytes): Option<seq<Bytes>>
    decreases |b|
  {
    if b == [] then Some([])
    else if 1 + b[0] as int > |b| then None
    else match ReadStrings(b[1 + b[0]..])
      case None => None
      case Some(rest) => Some([b[1..1 + b[0]]] + rest)
  }

  function Concat(ss: seq<Bytes>): Bytes {
    if ss == [] then [] else ss[0] + Concat(ss[1..])
  }

  lemma ConcatShort(s: Bytes)
    ensures Concat([]) == [] && Concat([s]) == s
  {
  }

  lemma {:induction false} ConcatAppend(a: seq<Bytes>, b: seq<Bytes>)
    ensures Concat(a + b) == Concat(a) + Concat(b)
    decreases |a|
  {
    if a == [] {
      assert a + b == b;
    } else {
      assert (a + b)[1..] == a[1..] + b;
      ConcatAppend(a[1..], b);
      ConcatAssoc(a[0], Concat(a[1..]), Concat(b));
    }
  }

  lemma {:induction false} ReadStringsCons(s: Bytes, b: Bytes)
    requires |s| <= 255 && ReadStrings(b).Some?
    ensures ReadStrings([|s|] + s + b) == Some([s] + ReadStrings(b).value)
  {
  }

  lemma {:induction false} ReadStringsAppend(b: Bytes, s: Bytes)
    requires ReadStrings(b).Some? && |s| <= 255
    ensures ReadStrings(b + ([|s|] + s)) == Some(ReadStrings(b).value + [s])
    decreases |b|
  {
    hide ReadStrings;
    var piece: Bytes := [|s|] + s;
    if b == [] {
      ReadStringsEmpty();
      ReadStringsCons(s, []);
      assert b + piece == piece + [];
      assert ReadStrings(b).value + [s] == [s] + ReadStrings([]).value;
    } else {
      StringsSplit(b);
      var n := 1 + b[0] as int;
      ReadStringsAppend(b[n..], s);
      ReadStringsCons(b[1..n], b[n..] + piece);
      ConcatAssoc([b[0]] + b[1..n], b[n..], piece);
      var rest := ReadStrings(b[n..]).value;
      assert [b[1..n]] + (rest + [s]) == [b[1..n]] + rest + [s];
    }
  }

  lemma ReadStringsEmpty()
    ensures ReadStrings([]) == Some([])
  {
  }

  lemma {:induction false} StringsSplit(b: Bytes)
    requires b != [] && ReadStrings(b).Some?
    ensures var n := 1 + b[0] as int;
            && n <= |b| && b == [b[0]] + b[1..n] + b[n..]
            && ReadStrings(b[n..]).Some? && ReadStrings(b).value == [b[1..n]] + ReadStrings(b[n..]).value
  {
  }

  /**
   RR_TXT: the value is cut into strings of 255 bytes and a last one of what is left; an empty
   value is one empty string. Reading the strings and joining them gives the value back.
   */
  method TxtData(value: Bytes) returns (rData: Bytes)
    ensures ReadStrings(rData).Some?
    ensures var ss := ReadStrings(rData).value;
            && Concat(ss) == value && ss != []
            && (forall i :: 0 <= i < |ss| - 1 ==> |ss[i]| == 255)
            && (|ss| > 1 ==> ss[|ss| - 1] != [])
    ensures |rData| == |value| + (if value == [] then 1 else (|value| + 254) / 255)
  {
    hide ReadStrings, Concat;
    ReadStringsEmpty();
    ConcatShort([]);
    rData := [];
    var v := value;
    ghost var ss: seq<Bytes> := [];
    var first := true;
    while first || v != []
      invariant ReadStrings(rData) == Some(ss) && Concat(ss) + v == value
      invariant first <==> ss == []
      invariant first ==> v == value
      invariant forall i :: 0 <= i < |ss| - 1 ==> |ss[i]| == 255
      invariant !first ==> (v != [] ==> |ss[|ss| - 1]| == 255) && (|ss| > 1 ==> ss[|ss| - 1] != [])
      invariant |rData| == |value| - |v| + |ss|
      invariant v != [] ==> 255 * |ss| == |value| - |v|
      invariant v == [] && value != [] ==> |ss| == (|value| + 254) / 255
      invariant value == [] ==> |ss| <= 1
      decreases |v|, first
    {
      var size := if |v| < 255 then |v| else 255;
      var s := v[..size];
      ReadStringsAppend(rData, s);
      ConcatAppend(ss, [s]);
      ConcatShort(s);
      ConcatAssoc(Concat(ss), s, v[size..]);
      assert s + v[size..] == v;
      rData := rData + ([size] + s);
      ss := ss + [s];
      v := v[size..];
      first := false;
    }
    assert Concat(ss) + [] == Concat(ss);
  }

  // ----- SOA -----

  /** The room set aside for a name: its text, an implied final dot and a zero byte. */
  function RoomFor(name: Bytes): nat {
    |name| + (if name != [] && name[|name| - 1] == DOT then 0 else 1) + 1
  }

  /** The room is what the name takes exactly when the name is not the root. */
  lemma RoomExact(name: Bytes)
    ensures NameWire(name, map[]).Some? ==>
              |NameWire(name, map[]).value| <= RoomFor(name) &&
              (|NameWire(name, map[]).value| == RoomFor(name) <==> Strip(name) != [])
  {
    SuffixWireLength(Strip(name));
  }

  datatype Soa = Soa(mname: Bytes, rname: Bytes, serial: uint32, refresh: uint32, retry: uint32, expire: uint32, minimum: uint32)

  function SoaInts(s: Soa): (b: Bytes)
    ensures |b| == 20
  {
    U32(s.serial) + U32(s.refresh) + U32(s.retry) + U32(s.expire) + U32(s.minimum)
  }

  function Zeros(n: nat): Bytes {
    seq(n, _ => 0 as byte)
  }

  /** The data as built: both names, the integers, and whatever of the room is left over. */
  function SoaWire(s: Soa): Option<Bytes> {
    var m, r := NameWire(s.mname, map[]), NameWire(s.rname, map[]);
    if m.None? || r.None? then None
    else
      RoomExact(s.mname);
      RoomExact(s.rname);
      Some(m.value + r.value + SoaInts(s) +
           Zeros(RoomFor(s.mname) - |m.value| + RoomFor(s.rname) - |r.value|))
  }

  /** SOA data as section 3.3.13 of RFC 1035 has it: two names, five integers, and nothing after. */
  predicate ReadsAsSoa(b: Bytes, s: Soa) {
    var m := ReadName(b, 0, 0);
    m.NameRead? && m.labels == Labels(s.mname) &&
    var r := ReadName(b, m.next, m.next);
    r.NameRead? && r.labels == Labels(s.rname) && r.next + 20 == |b|
    && ReadU32(b, r.next) == s.serial && ReadU32(b, r.next + 4) == s.refresh && ReadU32(b, r.next + 8) == s.retry
    && ReadU32(b, r.next + 12) == s.expire && ReadU32(b, r.next + 16) == s.minimum
  }

  lemma SoaIntsRead(pre: Bytes, s: Soa, post: Bytes)
    ensures var b := pre + SoaInts(s) + post;
            && ReadU32(b, |pre|) == s.serial && ReadU32(b, |pre| + 4) == s.refresh && ReadU32(b, |pre| + 8) == s.retry
            && ReadU32(b, |pre| + 12) == s.expire && ReadU32(b, |pre| + 16) == s.minimum
  {
    hide U32, ReadU32;
    var a, b, c, d, e := U32(s.serial), U32(s.refresh), U32(s.retry), U32(s.expire), U32(s.minimum);
    var all := pre + SoaInts(s) + post;
    U32RoundTrip(pre, s.serial, b + c + d + e + post);
    assert all == pre + a + (b + c + d + e + post);
    U32RoundTrip(pre + a, s.refresh, c + d + e + post);
    assert all == pre + a + b + (c + d + e + post);
    U32RoundTrip(pre + a + b, s.retry, d + e + post);
    assert all == pre + a + b + c + (d + e + post);
    U32RoundTrip(pre + a + b + c, s.expire, e + post);
    assert all == pre + a + b + c + d + (e + post);
    U32RoundTrip(pre + a + b + c + d, s.minimum, post);
    assert all == pre + a + b + c + d + e + post;
  }

  /** RR_SOA builds proper SOA data for well-formed names exactly when neither is the root. */
  lemma SoaReads(s: Soa)
    requires WellFormed(s.mname) && WellFormed(s.rname)
    ensures SoaWire(s).Some?
    ensures ReadsAsSoa(SoaWire(s).value, s) <==> Strip(s.mname) != [] && Strip(s.rname) != []
  {
    hide ReadName, NameWire, WellFormed, Labels, SoaInts, Strip, RoomFor, ReadU32;
    WellFormedWritten(s.mname, map[]);
    WellFormedWritten(s.rname, map[]);
    RoomExact(s.mname);
    RoomExact(s.rname);
    var m, r := NameWire(s.mname, map[]).value, NameWire(s.rname, map[]).value;
    TableHoldsEmpty([]);
    TableHoldsEmpty(m);
    NameReads([], map[], s.mname, m);
    NameReads(m, map[], s.rname, r);
    assert [] + m == m;
    var extra := Zeros(RoomFor(s.mname) - |m| + RoomFor(s.rname) - |r|);
    var b := SoaWire(s).value;
    ConcatAssoc(m, r, SoaInts(s));
    ConcatAssoc(m, r + SoaInts(s), extra);
    ConcatAssoc(r, SoaInts(s), extra);
    ConcatAssoc(m + r, SoaInts(s), extra);
    ReadNameExtend(m, r + SoaInts(s) + extra, 0, 0);
    ReadNameExtend(m + r, SoaInts(s) + extra, |m|, |m|);
    SoaIntsRead(m + r, s, extra);
  }
}
