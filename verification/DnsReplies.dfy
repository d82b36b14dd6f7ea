/**
 What the reader of a reply sees of its flags and of its option record, bit by bit and field by
 field, whether the reply is whole or truncated.
 */
module DnsReplies {
  import opened WireBytes
  import opened Bits
  import opened DnsNames
  import opened DnsMessage
  import opened DnsRoundTrip
  import opened DnsTruncation

  lemma FlagPowers()
    ensures Pow2(15) == 0x8000 && Pow2(9) == 0x200 && Pow2(5) == 0x20
  {
    assert Pow2(5) == 0x20;
    assert Pow2(9) == 0x200;
    assert Pow2(13) == 0x2000;
  }

  lemma SetBitIs(f: uint16, bit: uint16, k: nat, i: nat)
    requires bit in {QR, TC, AD} && bit == Pow2(k)
    ensures Bit(SetBit(f, bit), i) == if i == k then 1 else Bit(f, i)
  {
    hide Bit, Pow2;
    BitByDivision(f, k);
    if Bit(f, k) == 0 {
      AddBit(f, k, i);
    }
  }

  lemma ClearBitIs(f: uint16, bit: uint16, k: nat, i: nat)
    requires bit in {QR, TC, AD} && bit == Pow2(k)
    ensures Bit(ClearBit(f, bit), i) == if i == k then 0 else Bit(f, i)
  {
    hide Bit, Pow2;
    BitByDivision(f, k);
    if Bit(f, k) == 1 {
      TakeBit(f, k, i);
    }
  }

  lemma BitByDivision(f: nat, k: nat)
    ensures f / Pow2(k) % 2 == Bit(f, k) && (Bit(f, k) == 0 || Bit(f, k) == 1)
  {
    hide Shr, Pow2;
    ShrDivides(f, k);
  }

  /** The flags of a reply: those of the query, a response, never authenticated, truncated or not. */
  ghost predicate AnswersFlags(f: uint16, query: uint16, truncated: bool) {
    forall i: nat :: i < 16 ==>
                       Bit(f, i) == if i == 15 then 1 else if i == 5 then 0 else if i == 9 && truncated then 1 else Bit(query, i)
  }

  /** An option record that carries the payload limit, the flags and the cookie, if there is one. */
  predicate CarriesOption(r: Rec, e: Edns) {
    && r.labels == [] && r.rtype == 41 && r.rclass == e.maxPayload && r.ttl == e.flags % 0x1_0000_0000
    && r.data.ReadRaw?
    && match e.cookie
       case None => r.data.bytes == []
       case Some(c) =>
         && |r.data.bytes| == 4 + |c| && r.data.bytes[4..] == c
         && ReadU16(r.data.bytes, 0) == 10 && ReadU16(r.data.bytes, 2) == |c| % 0x1_0000
  }

  lemma ReplyFlags(m: Message)
    ensures AnswersFlags(ReplyFields(m), m.fields, false)
    ensures AnswersFlags(SetBit(ReplyFields(m), TC), m.fields, true)
  {
    hide Bit, SetBit, ClearBit, Pow2;
    FlagPowers();
    forall i: nat | i < 16
      ensures Bit(ReplyFields(m), i) == if i == 15 then 1 else if i == 5 then 0 else Bit(m.fields, i)
      ensures Bit(SetBit(ReplyFields(m), TC), i) == if i == 9 then 1 else Bit(ReplyFields(m), i)
    {
      SetBitIs(m.fields, QR, 15, i);
      ClearBitIs(SetBit(m.fields, QR), AD, 5, i);
      SetBitIs(ReplyFields(m), TC, 9, i);
    }
  }

  lemma OptionRead(e: Edns)
    ensures CarriesOption(RecordMeaning(EdnsRecord(e)), e)
  {
    assert Labels([]) == [];
    if e.cookie.Some? {
      var c := e.cookie.value;
      U16RoundTrip([], OPT_COOKIE, U16(|c| % 0x1_0000) + c);
      assert CookieOption(c) == U16(OPT_COOKIE) + (U16(|c| % 0x1_0000) + c);
      U16RoundTrip(U16(OPT_COOKIE), |c| % 0x1_0000, c);
    }
  }

  /** A whole reply, read: its identifier and flags, and its option record as the only additional one. */
  lemma WholeReplySeen(m: Message, limit: nat, width: nat, d: Draft)
    requires width == 2 || width == 4
    requires WellFormedMessage(m) && PutMessage(m) == Some(d)
    requires |d.msg| <= limit && |d.msg| <= 0x4000
    ensures Encode(m, limit, width) == Some(d.msg) && ReadMessage(d.msg).Some?
    ensures var r := ReadMessage(d.msg).value;
            && r.id == m.id && AnswersFlags(r.fields, m.fields, false)
            && (if m.edns.Some? then |r.additional| == 1 && CarriesOption(r.additional[0], m.edns.value)
                else r.additional == [])
  {
    hide AnswersFlags, CarriesOption, ReadMessage, Encode, PutMessage, WellFormedMessage, ReplyFields, RecordMeaning;
    EncodedMessageReads(m, limit, width, d);
    ReplyFlags(m);
    if m.edns.Some? {
      OptionRead(m.edns.value);
    }
  }

  /** A truncated reply without authorities, patched two bytes wide, read. */
  lemma TruncatedReplySeen(m: Message, o: Draft, limit: nat)
    requires WellFormedMessage(m) && PutOpening(m) == Some(o) && |m.authorities| % 0x1_0000 == 0
    requires PutMessage(m).Some? ==> |PutMessage(m).value.msg| > limit
    requires |o.msg| <= limit && |Truncated(m, o.msg, limit, 2)| <= 0x4000
    ensures Encode(m, limit, 2).Some? && ReadMessage(Encode(m, limit, 2).value).Some?
    ensures var r := ReadMessage(Encode(m, limit, 2).value).value;
            && r.id == m.id && AnswersFlags(r.fields, m.fields, true) && r.answers == [] && r.authorities == []
            && (if EdnsFits(m, o.msg, limit) then |r.additional| == 1 && CarriesOption(r.additional[0], m.edns.value)
                else r.additional == [])
  {
    hide AnswersFlags, CarriesOption, ReadMessage, Encode, PutMessage, WellFormedMessage, ReplyFields, RecordMeaning,
      Truncated, PutOpening, SetBit;
    TruncatedReplyReads(m, o, limit, 2);
    ReplyFlags(m);
    if m.edns.Some? {
      OptionRead(m.edns.value);
    }
  }
}
