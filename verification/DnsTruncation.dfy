/**
 The size limit of a reply, and what is sent when its records do not fit.
 */
module DnsTruncation {
  import opened WireBytes
  import opened DnsNames
  import opened DnsMessage
  import opened DnsRoundTrip

  /** No reply is longer than its limit, whatever was asked to be encoded. */
  lemma EncodeWithinLimit(m: Message, limit: nat, width: nat)
    requires width == 2 || width == 4
    ensures Encode(m, limit, width).Some? ==> 12 <= |Encode(m, limit, width).value| <= limit
  {
    hide PutRecords, AllRecords, Header, EdnsWire;
    if PutOpening(m).Some? {
      var o := PutOpening(m).value;
      assert |o.msg| >= 12;
      if PutRecords(o, AllRecords(m)).Some? {
        PutRecordsGrow(o, AllRecords(m), PutRecords(o, AllRecords(m)).value);
      }
    }
  }

  /** Well-formed names are never the reason to truncate: only the size is. */
  lemma {:induction false} WellFormedRecordsPut(d: Draft, rs: seq<Record>)
    requires forall r :: r in rs ==> WellFormedRecord(r)
    ensures PutRecords(d, rs).Some?
    decreases |rs|
  {
    hide WellFormed, NameWire, NameEntries, DataEntries, FixedFields;
    if rs != [] {
      var r := rs[0];
      assert WellFormedRecord(r);
      WellFormedWritten(r.name, d.names);
      var n := PutName(d, r.name).value;
      match r.data {
        case Raw(_) =>
        case Target(name) => WellFormedWritten(name, n.names);
        case Srv(_, _, _, target) => WellFormedWritten(target, n.names);
      }
      WellFormedRecordsPut(PutRecord(d, r).value, rs[1..]);
    }
  }

  lemma WellFormedMessagePut(m: Message)
    requires WellFormedMessage(m)
    ensures PutOpening(m).Some? && PutMessage(m).Some?
  {
    hide WellFormed, WellFormedRecord, NameWire, PutRecords, EdnsRecord;
    if m.question.Some? {
      WellFormedWritten(m.question.value.name, map[]);
    }
    if m.edns.Some? {
      EdnsWellFormed(m.edns.value);
    }
    WellFormedRecordsPut(PutOpening(m).value, AllRecords(m));
  }

  // ----- the truncated reply -----

  /** What a truncated reply should be read as. */
  function TruncatedMeaning(m: Message, withEdns: bool): Msg {
    Msg(m.id, SetBit(ReplyFields(m), TC), QuestionsMeaning(m.question), [], [],
        if withEdns then EdnsMeaning(m.edns) else [])
  }

  /** Whether the EDNS record fits after the question. */
  predicate EdnsFits(m: Message, opening: Bytes, limit: nat) {
    m.edns.Some? && |opening| + |EdnsWire(m.edns.value)| <= limit
  }

  /** The header as it stands in a truncated reply. */
  function PatchedHeader(m: Message, width: nat, dropEdns: bool): (h: Bytes)
    requires width == 2 || width == 4
    ensures |h| == 12
  {
    var h := Overwrite(Overwrite(MessageHeader(m), 2, Wide(SetBit(ReplyFields(m), TC), width)), 6, Wide(0, width));
    if dropEdns then Overwrite(h, 10, Wide(0, width)) else h
  }

  /** With two-byte writes only the authority count is left as it was. */
  lemma PatchedHeaderNarrow(m: Message, dropEdns: bool)
    ensures PatchedHeader(m, 2, dropEdns)
            == Header(m.id, SetBit(ReplyFields(m), TC), if m.question.Some? then 1 else 0, 0, |m.authorities| % 0x1_0000,
                      if m.edns.Some? && !dropEdns then 1 else 0)
  {
  }

  /** With four-byte writes the two flag bytes end up zero. */
  lemma PatchedHeaderWide(m: Message, dropEdns: bool)
    ensures ReadU16(PatchedHeader(m, 4, dropEdns), 2) == 0
  {
  }

  /** The question bytes do not depend on what the header holds. */
  lemma OpeningBody(h: Bytes, g: Bytes, question: Option<Question>, o: Draft)
    requires |h| == |g| == 12 && Opening(h, question) == Some(o)
    ensures h <= o.msg && Opening(g, question) == Some(Draft(g + o.msg[12..], o.names))
  {
    hide NameWire, NameEntries;
    if question.Some? {
      var q := question.value;
      var w := NameWire(q.name, map[]).value;
      var tail := U16(q.qtype) + U16(q.qclass);
      ConcatAssoc(h, w, tail);
      ConcatAssoc(g, w, tail);
      assert o.msg[12..] == w + tail;
    } else {
      assert g + o.msg[12..] == g;
    }
  }

  lemma EdnsWireIsRecord(d: Draft, e: Edns)
    ensures PutRecord(d, EdnsRecord(e)) == Some(Draft(d.msg + EdnsWire(e), d.names))
  {
    hide FixedFields;
    var r := EdnsRecord(e);
    var fixed := FixedFields(r) + U16(|r.data.bytes| % 0x1_0000);
    ConcatAssoc(d.msg, [0], fixed);
    ConcatAssoc(d.msg, [0] + fixed, r.data.bytes);
    assert d.names + map[] == d.names;
  }

  predicate DropsEdns(m: Message, opening: Bytes, limit: nat) {
    m.edns.Some? && !EdnsFits(m, opening, limit)
  }

  /** The first twelve bytes of a truncated reply, at either width. */
  lemma TruncatedHeader(m: Message, o: Bytes, limit: nat, width: nat)
    requires width == 2 || width == 4
    requires MessageHeader(m) <= o
    ensures PatchedHeader(m, width, DropsEdns(m, o, limit)) <= Truncated(m, o, limit, width)
  {
  }

  /** Unless a four-byte write reaches past the header, the question stands as it was. */
  lemma TruncatedShape(m: Message, o: Bytes, limit: nat, width: nat)
    requires width == 2 || (width == 4 && !DropsEdns(m, o, limit))
    requires MessageHeader(m) <= o
    ensures Truncated(m, o, limit, width)
            == PatchedHeader(m, width, DropsEdns(m, o, limit)) + o[12..]
               + (if EdnsFits(m, o, limit) then EdnsWire(m.edns.value) else [])
  {
  }

  /** When the patches spare the bytes after the header, these read as they did. */
  lemma SparedBodyReads(m: Message, o: Draft, limit: nat, width: nat)
    requires (width == 2 || width == 4) && WellFormedMessage(m) && PutOpening(m) == Some(o)
    requires |Truncated(m, o.msg, limit, width)| <= 0x4000
    requires Truncated(m, o.msg, limit, width)
             == PatchedHeader(m, width, DropsEdns(m, o.msg, limit)) + o.msg[12..]
                + (if EdnsFits(m, o.msg, limit) then EdnsWire(m.edns.value) else [])
    ensures var t := Truncated(m, o.msg, limit, width);
            && ReadQuestions(t, 12, if m.question.Some? then 1 else 0)
               == QuestionsRead(QuestionsMeaning(m.question), |o.msg|)
            && (if EdnsFits(m, o.msg, limit)
                then ReadRecord(t, |o.msg|) == RecordRead(RecordMeaning(EdnsRecord(m.edns.value)), |t|)
                else |t| == |o.msg|)
  {
    hide ReadQuestions, ReadRecord, WellFormed, WellFormedRecord, RecordMeaning, QuestionsMeaning, Opening,
      MessageHeader, PatchedHeader, EdnsWire, EdnsRecord, Truncated, TableHolds;
    var t := Truncated(m, o.msg, limit, width);
    var h := PatchedHeader(m, width, DropsEdns(m, o.msg, limit));
    OpeningBody(MessageHeader(m), h, m.question, o);
    var p := Draft(h + o.msg[12..], o.names);
    var rest := if EdnsFits(m, o.msg, limit) then EdnsWire(m.edns.value) else [];
    OpeningReads(h, m.question, p, rest);
    if EdnsFits(m, o.msg, limit) {
      EdnsWireIsRecord(p, m.edns.value);
      EdnsWellFormed(m.edns.value);
      PutRecordReads(p, EdnsRecord(m.edns.value), Draft(t, p.names));
    }
  }

  /** The wide patch of the option count also clears the first two bytes after the header. */
  lemma WideDrop(m: Message, o: Bytes, limit: nat)
    requires DropsEdns(m, o, limit) && MessageHeader(m) <= o
    ensures var t := Truncated(m, o, limit, 4);
            && |t| == |o| && (forall i :: 14 <= i < |o| ==> t[i] == o[i])
            && (forall i :: 12 <= i < 14 && i < |o| ==> t[i] == 0)
            && (|o| == 12 || (|o| >= 14 && o[12] == 0 && o[13] == 0) ==>
                  t == PatchedHeader(m, 4, true) + o[12..])
  {
    hide MessageHeader, SetBit, ReplyFields;
  }

  /** Whether a question survives that: it asks for the root and a type of one byte. */
  predicate Survives(q: Question) {
    Strip(q.name) == [] && q.qtype < 0x100
  }

  /** The bytes of a question after the header, and the first two of them. */
  lemma QuestionBytes(h: Bytes, q: Question, o: Draft)
    requires |h| == 12 && WellFormed(q.name) && Opening(h, Some(q)) == Some(o)
    ensures |o.msg| >= 17 && (o.msg[12] == 0 && o.msg[13] == 0 <==> Survives(q))
    ensures Strip(q.name) == [] ==> |o.msg| == 17 && o.msg[14] == q.qtype % 0x100
  {
    var w := NameWire(q.name, map[]).value;
    assert o.msg == h + w + (U16(q.qtype) + U16(q.qclass));
    if Strip(q.name) != [] {
      hide SuffixWire;
      assert |w| >= 1 && w[0] != 0 by {
        FirstByte(Strip(q.name));
      }
    }
  }

  lemma FirstByte(s: Bytes)
    requires s != [] && SuffixWire(s, map[]).Some?
    ensures var w := SuffixWire(s, map[]).value; |w| >= 1 && w[0] != 0
  {
    assert |Head(s)| >= 1;
  }

  /** A question whose first two bytes were cleared reads as another, unless they were zero. */
  lemma ClearedQuestion(t: Bytes, o: Draft, h: Bytes, q: Question)
    requires |h| == 12 && WellFormed(q.name) && Opening(h, Some(q)) == Some(o) && !Survives(q)
    requires |t| == |o.msg| && t[12] == 0 && (|t| > 13 ==> t[13] == 0) && forall i :: 14 <= i < |t| ==> t[i] == o.msg[i]
    ensures ReadQuestions(t, 12, 1) != QuestionsRead(QuestionsMeaning(Some(q)), |o.msg|)
  {
    QuestionBytes(h, q, o);
    assert ReadName(t, 12, 12) == NameRead([], 13);
    var r := ReadQuestion(t, 12);
    assert r == QuestionRead(Ques([], ReadU16(t, 13), ReadU16(t, 15)), 17);
    assert ReadQuestions(t, 17, 0) == QuestionsRead([], 17);
    assert ReadQuestions(t, 12, 1) == QuestionsRead([r.ques] + [], 17);
    assert ([r.ques] + [])[0] == r.ques && QuestionsMeaning(Some(q))[0] == Ques(Labels(q.name), q.qtype, q.qclass);
  }

  /**
   After the rollback the question reads as itself, unless the wide patch of the option count
   runs into it, and the option record does if it is there.
   */
  lemma TruncatedBodyReads(m: Message, o: Draft, limit: nat, width: nat)
    requires (width == 2 || width == 4) && WellFormedMessage(m) && PutOpening(m) == Some(o)
    requires |Truncated(m, o.msg, limit, width)| <= 0x4000
    ensures var t := Truncated(m, o.msg, limit, width);
            && (ReadQuestions(t, 12, if m.question.Some? then 1 else 0)
                == QuestionsRead(QuestionsMeaning(m.question), |o.msg|)
                <==> width == 2 || !DropsEdns(m, o.msg, limit) || m.question.None? || Survives(m.question.value))
            && (if EdnsFits(m, o.msg, limit)
                then ReadRecord(t, |o.msg|) == RecordRead(RecordMeaning(EdnsRecord(m.edns.value)), |t|)
                else |t| == |o.msg|)
  {
    hide ReadQuestions, ReadRecord, WellFormed, RecordMeaning, QuestionsMeaning, Opening, MessageHeader, PatchedHeader,
      EdnsWire, EdnsRecord, Truncated;
    OpeningStartsWithHeader(m, o);
    if width == 2 || !DropsEdns(m, o.msg, limit) {
      TruncatedShape(m, o.msg, limit, width);
      SparedBodyReads(m, o, limit, width);
    } else {
      WideDrop(m, o.msg, limit);
      assert EdnsFits(m, o.msg, limit) == false;
      if m.question.Some? {
        QuestionBytes(MessageHeader(m), m.question.value, o);
        if Survives(m.question.value) {
          SparedBodyReads(m, o, limit, width);
        } else {
          ClearedQuestion(Truncated(m, o.msg, limit, 4), o, MessageHeader(m), m.question.value);
        }
      } else {
        NoQuestionOpening(m, o);
        SparedBodyReads(m, o, limit, width);
      }
    }
  }

  lemma NoQuestionOpening(m: Message, o: Draft)
    requires m.question.None? && PutOpening(m) == Some(o)
    ensures |o.msg| == 12
  {
  }

  /** Two-byte writes and no authorities: the truncated reply reads as it should. */
  lemma NarrowTruncationReads(m: Message, o: Draft, limit: nat)
    requires WellFormedMessage(m) && PutOpening(m) == Some(o) && |m.authorities| % 0x1_0000 == 0
    requires |Truncated(m, o.msg, limit, 2)| <= 0x4000
    ensures ReadMessage(Truncated(m, o.msg, limit, 2)) == Some(TruncatedMeaning(m, EdnsFits(m, o.msg, limit)))
  {
    hide ReadMessage, ReadQuestions, ReadRecord, WellFormed, WellFormedRecord, RecordMeaning, QuestionsMeaning, Opening,
      Header, PatchedHeader, EdnsWire, EdnsRecord, Truncated, TableHolds, SetBit, ClearBit, PutRecord;
    var t := Truncated(m, o.msg, limit, 2);
    var drop := DropsEdns(m, o.msg, limit);
    var h := PatchedHeader(m, 2, drop);
    PatchedHeaderNarrow(m, drop);
    OpeningBody(MessageHeader(m), h, m.question, o);
    TruncatedShape(m, o.msg, limit, 2);
    var p := Draft(h + o.msg[12..], o.names);
    var f := SetBit(ReplyFields(m), TC);
    if EdnsFits(m, o.msg, limit) {
      var e := EdnsRecord(m.edns.value);
      EdnsWireIsRecord(p, m.edns.value);
      EdnsWellFormed(m.edns.value);
      var d := Draft(t, p.names);
      assert PutRecords(p, [e]) == Some(d) by {
        assert [e][1..] == [];
      }
      AssembledReads(m.id, f, m.question, [], [], [e], p, p, p, d);
      assert RecordsMeaning([e]) == EdnsMeaning(m.edns);
    } else {
      assert t == p.msg;
      AssembledReads(m.id, f, m.question, [], [], [], p, p, p, p);
    }
    assert RecordsMeaning([]) == [];
  }

  /**
   A truncated reply is read as a truncated reply -- TC set, the question, no answers or
   authorities, the EDNS record if it fits -- exactly when the header writes are two bytes wide
   and there were no authority records: their count is not written back to zero.
   */
  lemma TruncatedReplyReads(m: Message, o: Draft, limit: nat, width: nat)
    requires width == 2 || width == 4
    requires WellFormedMessage(m) && PutOpening(m) == Some(o)
    requires PutMessage(m).Some? ==> |PutMessage(m).value.msg| > limit
    requires |o.msg| <= limit
    requires |Truncated(m, o.msg, limit, width)| <= 0x4000
    ensures Encode(m, limit, width) == Some(Truncated(m, o.msg, limit, width))
    ensures ReadMessage(Truncated(m, o.msg, limit, width)) == Some(TruncatedMeaning(m, EdnsFits(m, o.msg, limit)))
            <==> width == 2 && |m.authorities| % 0x1_0000 == 0
  {
    hide ReadQuestions, ReadRecords, WellFormedMessage, Truncated, PutRecords, QuestionsMeaning, EdnsMeaning, MessageHeader,
      PatchedHeader, ReplyFields, EdnsFits;
    var t := Truncated(m, o.msg, limit, width);
    var drop := DropsEdns(m, o.msg, limit);
    OpeningStartsWithHeader(m, o);
    TruncatedHeader(m, o.msg, limit, width);
    if width == 4 {
      PatchedHeaderWide(m, drop);
      assert ReadU16(t, 2) == 0;
    } else if |m.authorities| % 0x1_0000 != 0 {
      PatchedHeaderNarrow(m, drop);
      NarrowAuthorityCount(m, drop);
      assert ReadU16(t, 8) == |m.authorities| % 0x1_0000;
    } else {
      NarrowTruncationReads(m, o, limit);
    }
  }

  lemma OpeningStartsWithHeader(m: Message, o: Draft)
    requires PutOpening(m) == Some(o)
    ensures MessageHeader(m) <= o.msg
  {
  }

  lemma NarrowAuthorityCount(m: Message, drop: bool)
    ensures ReadU16(PatchedHeader(m, 2, drop), 8) == |m.authorities| % 0x1_0000
  {
  }
}
