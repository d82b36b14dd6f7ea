/**
 Reading a reply gives back what was encoded: every name, whether it was written out or
 compressed, every fixed field and every length.
 */
module DnsRoundTrip {
  import opened WireBytes
  import opened DnsNames
  import opened DnsMessage

  ghost predicate Holds(d: Draft) {
    TableHolds(d.msg, d.names)
  }

  // ----- reading is stable under appending -----

  lemma ReadDataExtend(msg: Bytes, ext: Bytes, rtype: uint16, at: nat, end: nat)
    requires at <= end <= |msg| && ReadData(msg, rtype, at, end).Some?
    ensures ReadData(msg + ext, rtype, at, end) == ReadData(msg, rtype, at, end)
  {
    hide ReadName;
    var all := msg + ext;
    if rtype == CNAME || rtype == PTR {
      ReadNameExtend(msg, ext, at, at);
    } else if rtype == SRV {
      ReadNameExtend(msg, ext, at + 6, at + 6);
    } else {
      assert all[at..end] == msg[at..end];
    }
  }

  lemma ReadRecordExtend(msg: Bytes, ext: Bytes, at: nat)
    requires ReadRecord(msg, at).RecordRead?
    ensures ReadRecord(msg + ext, at) == ReadRecord(msg, at)
  {
    hide ReadName, ReadData;
    ReadNameExtend(msg, ext, at, at);
    var p := ReadName(msg, at, at).next;
    var end := p + 10 + ReadU16(msg, p + 8);
    ReadDataExtend(msg, ext, ReadU16(msg, p), p + 10, end);
  }

  lemma ReadQuestionExtend(msg: Bytes, ext: Bytes, at: nat)
    requires ReadQuestion(msg, at).QuestionRead?
    ensures ReadQuestion(msg + ext, at) == ReadQuestion(msg, at)
  {
    hide ReadName;
    ReadNameExtend(msg, ext, at, at);
  }

  // ----- one name, question, record -----

  lemma PutNameReads(d: Draft, name: Bytes, e: Draft)
    requires WellFormed(name) && Holds(d) && PutName(d, name) == Some(e)
    ensures d.msg <= e.msg
    ensures ReadName(e.msg, |d.msg|, |d.msg|) == NameRead(Labels(name), |e.msg|)
    ensures |e.msg| <= 0x4000 ==> Holds(e)
  {
    hide ReadName, WellFormed, TableHolds;
    var w := NameWire(name, d.names).value;
    NameReads(d.msg, d.names, name, w);
    if |e.msg| <= 0x4000 {
      NameKeepsTable(d.msg, d.names, name, w);
    }
  }

  lemma PutQuestionReads(d: Draft, q: Question, e: Draft)
    requires WellFormed(q.name) && Holds(d) && PutQuestion(d, q) == Some(e)
    ensures d.msg <= e.msg
    ensures ReadQuestion(e.msg, |d.msg|) == QuestionRead(Ques(Labels(q.name), q.qtype, q.qclass), |e.msg|)
    ensures |e.msg| <= 0x4000 ==> Holds(e)
  {
    hide ReadName, WellFormed, TableHolds, PutName;
    var n := PutName(d, q.name).value;
    PutNameReads(d, q.name, n);
    var tail := U16(q.qtype) + U16(q.qclass);
    ReadNameExtend(n.msg, tail, |d.msg|, |d.msg|);
    U16RoundTrip(n.msg, q.qtype, U16(q.qclass));
    U16RoundTrip(n.msg + U16(q.qtype), q.qclass, []);
    assert e.msg == n.msg + U16(q.qtype) + U16(q.qclass);
    assert e.msg == n.msg + U16(q.qtype) + U16(q.qclass) + [];
    if |e.msg| <= 0x4000 {
      TableHoldsExtend(n.msg, tail, n.names);
    }
  }

  /** Data written after `d`, of which the record's length is the length, reads as its meaning. */
  lemma DataReads(d: Draft, rtype: uint16, data: RData, w: Bytes)
    requires WellFormedData(rtype, data) && Holds(d) && DataWire(data, d.names) == Some(w)
    ensures ReadData(d.msg + w, rtype, |d.msg|, |d.msg + w|) == Some(DataMeaning(data))
  {
    hide ReadName, WellFormed, TableHolds;
    var all := d.msg + w;
    match data {
      case Raw(bytes) =>
        assert all[|d.msg|..|all|] == bytes;
      case Target(name) =>
        NameReads(d.msg, d.names, name, w);
      case Srv(priority, weight, port, target) =>
        SrvReads(d, priority, weight, port, target, w);
    }
  }

  lemma U16sRead(msg: Bytes, priority: uint16, weight: uint16, port: uint16, rest: Bytes)
    ensures var all := msg + U16s(priority, weight, port) + rest;
            ReadU16(all, |msg|) == priority && ReadU16(all, |msg| + 2) == weight && ReadU16(all, |msg| + 4) == port
  {
  }

  lemma SrvReads(d: Draft, priority: uint16, weight: uint16, port: uint16, target: Bytes, w: Bytes)
    requires WellFormed(target) && Holds(d) && DataWire(Srv(priority, weight, port, target), d.names) == Some(w)
    ensures ReadData(d.msg + w, SRV, |d.msg|, |d.msg + w|) == Some(ReadSrv(priority, weight, port, Labels(target)))
  {
    hide ReadName, WellFormed, TableHolds, U16s, Labels;
    var f := U16s(priority, weight, port);
    var n := NameWire(target, d.names).value;
    ConcatAssoc(d.msg, f, n);
    TableHoldsExtend(d.msg, f, d.names);
    NameReads(d.msg + f, d.names, target, n);
    U16sRead(d.msg, priority, weight, port, n);
  }

  lemma DataKeepsTable(d: Draft, rtype: uint16, data: RData, w: Bytes)
    requires WellFormedData(rtype, data) && Holds(d) && DataWire(data, d.names) == Some(w)
    requires |d.msg| + |w| <= 0x4000
    ensures TableHolds(d.msg + w, d.names + DataEntries(data, d.names, |d.msg|))
  {
    hide ReadName, WellFormed, TableHolds;
    match data {
      case Raw(bytes) =>
        TableHoldsExtend(d.msg, w, d.names);
        assert d.names + DataEntries(data, d.names, |d.msg|) == d.names;
      case Target(name) =>
        NameKeepsTable(d.msg, d.names, name, w);
      case Srv(priority, weight, port, target) =>
        var f := U16s(priority, weight, port);
        var n := NameWire(target, d.names).value;
        ConcatAssoc(d.msg, f, n);
        TableHoldsExtend(d.msg, f, d.names);
        NameKeepsTable(d.msg + f, d.names, target, n);
    }
  }

  lemma FixedFieldsRead(msg: Bytes, r: Record, len: uint16, rest: Bytes)
    ensures var all := msg + (FixedFields(r) + U16(len)) + rest;
            && ReadU16(all, |msg|) == r.rtype && ReadU16(all, |msg| + 2) == r.rclass
            && ReadU32(all, |msg| + 4) == r.ttl % 0x1_0000_0000 && ReadU16(all, |msg| + 8) == len
  {
  }

  /** A record reads back whole, and the table stays true for the records after it. */
  lemma PutRecordReads(d: Draft, r: Record, e: Draft)
    requires WellFormedRecord(r) && Holds(d) && PutRecord(d, r) == Some(e) && |e.msg| <= 0x4000
    ensures d.msg <= e.msg && Holds(e)
    ensures ReadRecord(e.msg, |d.msg|) == RecordRead(RecordMeaning(r), |e.msg|)
  {
    hide ReadName, WellFormed, TableHolds, PutName, FixedFields, ReadData, DataWire, DataMeaning, WellFormedData, Labels;
    var n := PutName(d, r.name).value;
    var w := DataWire(r.data, n.names).value;
    var fixed := FixedFields(r) + U16(|w| % 0x1_0000);
    PutNameReads(d, r.name, n);
    var base := Draft(n.msg + fixed, n.names);
    TableHoldsExtend(n.msg, fixed, n.names);
    DataReads(base, r.rtype, r.data, w);
    DataKeepsTable(base, r.rtype, r.data, w);
    ReadNameExtend(n.msg, fixed + w, |d.msg|, |d.msg|);
    ConcatAssoc(n.msg, fixed, w);
    FixedFieldsRead(n.msg, r, |w|, w);
  }

  // ----- sections -----

  lemma {:induction false} ReadRecordsExtend(msg: Bytes, ext: Bytes, at: nat, count: nat)
    requires ReadRecords(msg, at, count).RecordsRead?
    ensures ReadRecords(msg + ext, at, count) == ReadRecords(msg, at, count)
    decreases count
  {
    hide ReadRecord;
    if count > 0 {
      ReadRecordExtend(msg, ext, at);
      ReadRecordsExtend(msg, ext, ReadRecord(msg, at).next, count - 1);
    }
  }

  lemma {:induction false} PutRecordsGrow(d: Draft, rs: seq<Record>, e: Draft)
    requires PutRecords(d, rs) == Some(e)
    ensures d.msg <= e.msg && |d.msg| + |rs| <= |e.msg|
    decreases |rs|
  {
    if rs != [] {
      var next := PutRecord(d, rs[0]).value;
      assert d.msg <= next.msg && |next.msg| > |d.msg|;
      PutRecordsGrow(next, rs[1..], e);
    }
  }

  /** A run of records reads back in order. */
  lemma {:induction false} PutRecordsRead(d: Draft, rs: seq<Record>, e: Draft)
    requires Holds(d) && PutRecords(d, rs) == Some(e) && |e.msg| <= 0x4000
    requires forall r :: r in rs ==> WellFormedRecord(r)
    ensures d.msg <= e.msg && Holds(e)
    ensures ReadRecords(e.msg, |d.msg|, |rs|) == RecordsRead(RecordsMeaning(rs), |e.msg|)
    decreases |rs|
  {
    hide ReadRecord, PutRecord, TableHolds, Holds, WellFormedRecord, RecordMeaning;
    if rs == [] {
      assert RecordsMeaning(rs) == [];
    } else {
      var next := PutRecord(d, rs[0]).value;
      PutRecordsGrow(next, rs[1..], e);
      PutRecordReads(d, rs[0], next);
      PutRecordsRead(next, rs[1..], e);
      var ext := e.msg[|next.msg|..];
      assert e.msg == next.msg + ext;
      ReadRecordExtend(next.msg, ext, |d.msg|);
      assert RecordsMeaning(rs) == [RecordMeaning(rs[0])] + RecordsMeaning(rs[1..]);
    }
  }

  lemma {:induction false} PutRecordsSplit(d: Draft, rs: seq<Record>, ss: seq<Record>)
    ensures PutRecords(d, rs + ss) ==
            match PutRecords(d, rs) { case None => None case Some(e) => PutRecords(e, ss) }
    decreases |rs|
  {
    hide PutRecord;
    if rs == [] {
      assert rs + ss == ss;
    } else {
      assert (rs + ss)[1..] == rs[1..] + ss;
      if PutRecord(d, rs[0]).Some? {
        PutRecordsSplit(PutRecord(d, rs[0]).value, rs[1..], ss);
      }
    }
  }

  // ----- whole messages -----

  lemma HeaderReads(id: uint16, fields: uint16, qd: uint16, an: uint16, ns: uint16, ar: uint16, rest: Bytes)
    ensures var msg := Header(id, fields, qd, an, ns, ar) + rest;
            && ReadU16(msg, 0) == id && ReadU16(msg, 2) == fields && ReadU16(msg, 4) == qd
            && ReadU16(msg, 6) == an && ReadU16(msg, 8) == ns && ReadU16(msg, 10) == ar
  {
  }

  lemma OpeningReads(h: Bytes, question: Option<Question>, o: Draft, rest: Bytes)
    requires |h| == 12 && Opening(h, question) == Some(o)
    requires question.Some? ==> WellFormed(question.value.name)
    ensures h <= o.msg
    ensures ReadQuestions(o.msg + rest, 12, if question.Some? then 1 else 0)
            == QuestionsRead(QuestionsMeaning(question), |o.msg|)
    ensures |o.msg| <= 0x4000 ==> Holds(o)
  {
    hide ReadQuestion, PutQuestion, WellFormed, TableHolds, Labels;
    var d := Draft(h, map[]);
    TableHoldsEmpty(h);
    if question.Some? {
      PutQuestionReads(d, question.value, o);
      ReadQuestionExtend(o.msg, rest, 12);
      assert ReadQuestions(o.msg + rest, |o.msg|, 0) == QuestionsRead([], |o.msg|);
    }
  }

  /** A section, read within the whole message. */
  lemma SectionReads(d: Draft, rs: seq<Record>, e: Draft, all: Bytes)
    requires Holds(d) && PutRecords(d, rs) == Some(e) && e.msg <= all && |all| <= 0x4000
    requires forall r :: r in rs ==> WellFormedRecord(r)
    ensures Holds(e) && ReadRecords(all, |d.msg|, |rs|) == RecordsRead(RecordsMeaning(rs), |e.msg|)
  {
    hide ReadRecords, PutRecords, TableHolds, Holds, WellFormedRecord, RecordMeaning;
    PutRecordsRead(d, rs, e);
    PrefixRest(e.msg, all);
    ReadRecordsExtend(e.msg, all[|e.msg|..], |d.msg|, |rs|);
  }

  lemma ReadMessageParts(msg: Bytes, qs: QuestionsRead, an: RecordsRead, ns: RecordsRead, ar: RecordsRead)
    requires |msg| >= 12
    requires qs.QuestionsRead? && an.RecordsRead? && ns.RecordsRead? && ar.RecordsRead? && ar.next == |msg|
    requires ReadQuestions(msg, 12, ReadU16(msg, 4)) == qs
    requires ReadRecords(msg, qs.next, ReadU16(msg, 6)) == an
    requires ReadRecords(msg, an.next, ReadU16(msg, 8)) == ns
    requires ReadRecords(msg, ns.next, ReadU16(msg, 10)) == ar
    ensures ReadMessage(msg) == Some(Msg(ReadU16(msg, 0), ReadU16(msg, 2), qs.quess, an.recs, ns.recs, ar.recs))
  {
    hide ReadRecords, ReadQuestions;
  }

  /** A header with true counts, the question and three sections read back as a message. */
  lemma AssembledReads(id: uint16, fields: uint16, question: Option<Question>,
                       an: seq<Record>, ns: seq<Record>, ar: seq<Record>, o: Draft, d1: Draft, d2: Draft, d3: Draft)
    requires |an| < 0x1_0000 && |ns| < 0x1_0000 && |ar| < 0x1_0000
    requires Opening(Header(id, fields, if question.Some? then 1 else 0, |an|, |ns|, |ar|), question) == Some(o)
    requires PutRecords(o, an) == Some(d1) && PutRecords(d1, ns) == Some(d2) && PutRecords(d2, ar) == Some(d3)
    requires |d3.msg| <= 0x4000
    requires question.Some? ==> WellFormed(question.value.name)
    requires forall r :: r in an ==> WellFormedRecord(r)
    requires forall r :: r in ns ==> WellFormedRecord(r)
    requires forall r :: r in ar ==> WellFormedRecord(r)
    ensures ReadMessage(d3.msg)
            == Some(Msg(id, fields, QuestionsMeaning(question), RecordsMeaning(an), RecordsMeaning(ns), RecordsMeaning(ar)))
  {
    hide ReadMessage, ReadRecords, ReadQuestions, PutRecords, TableHolds, Holds, WellFormedRecord, RecordMeaning,
      WellFormed, Header, Opening, QuestionsMeaning, RecordsMeaning, ReadU16;
    var msg := d3.msg;
    var h := Header(id, fields, if question.Some? then 1 else 0, |an|, |ns|, |ar|);
    PutRecordsGrow(o, an, d1);
    PutRecordsGrow(d1, ns, d2);
    PutRecordsGrow(d2, ar, d3);
    PrefixRest(o.msg, msg);
    OpeningReads(h, question, o, msg[|o.msg|..]);
    PrefixRest(h, msg);
    HeaderReads(id, fields, if question.Some? then 1 else 0, |an|, |ns|, |ar|, msg[12..]);
    SectionReads(o, an, d1, msg);
    SectionReads(d1, ns, d2, msg);
    SectionReads(d2, ar, d3, msg);
    ReadMessageParts(msg, QuestionsRead(QuestionsMeaning(question), |o.msg|), RecordsRead(RecordsMeaning(an), |d1.msg|),
                     RecordsRead(RecordsMeaning(ns), |d2.msg|), RecordsRead(RecordsMeaning(ar), |d3.msg|));
  }

  lemma EdnsWellFormed(e: Edns)
    ensures WellFormedRecord(EdnsRecord(e))
  {
  }

  /**
   The round trip. A reply with well-formed names that fits its limit, and in 2^14 bytes, is
   read as exactly the message it was made from.
   */
  lemma EncodedMessageReads(m: Message, limit: nat, width: nat, d: Draft)
    requires width == 2 || width == 4
    requires WellFormedMessage(m) && PutMessage(m) == Some(d)
    requires |d.msg| <= limit && |d.msg| <= 0x4000
    ensures Encode(m, limit, width) == Some(d.msg)
    ensures ReadMessage(d.msg) == Some(MessageMeaning(m))
  {
    hide ReadMessage, ReadRecords, TableHolds, Holds, WellFormedRecord, RecordMeaning,
      WellFormed, Header, Opening, QuestionsMeaning, EdnsRecord, PutRecord, Truncated, SetBit, ClearBit;
    var o := PutOpening(m).value;
    var ar := if m.edns.Some? then [EdnsRecord(m.edns.value)] else [];
    if m.edns.Some? {
      EdnsWellFormed(m.edns.value);
    }
    PutRecordsSplit(o, m.answers + m.authorities, ar);
    PutRecordsSplit(o, m.answers, m.authorities);
    var d1 := PutRecords(o, m.answers).value;
    var d2 := PutRecords(d1, m.authorities).value;
    PutRecordsGrow(o, m.answers, d1);
    PutRecordsGrow(d1, m.authorities, d2);
    PutRecordsGrow(d2, ar, d);
    AssembledReads(m.id, ReplyFields(m), m.question, m.answers, m.authorities, ar, o, d1, d2, d);
    assert RecordsMeaning(ar) == EdnsMeaning(m.edns);
  }

  // ----- past 2^14 bytes -----

  const LETTER: Bytes := [97]

  /** A record of the root that fills a message up to 2^14 bytes, and an alias of `a` for itself. */
  function Filler(): Record {
    Record([], 16, 1, 0, Raw(seq(0x4000 - 23, _ => 0 as byte)))
  }

  function Alias(): Record {
    Record(LETTER, CNAME, 1, 0, Target(LETTER))
  }

  function FarMessage(): Message {
    Message(0, 0, None, [Filler(), Alias()], [], None)
  }

  lemma LetterNames()
    ensures WellFormed(LETTER) && WellFormed([]) && Labels(LETTER) == [LETTER]
    ensures NameWire([], map[]) == Some([0]) && NameEntries([], map[], 12) == map[]
    ensures NameWire(LETTER, map[]) == Some([1, 97, 0]) && NameEntries(LETTER, map[], 0x4000) == map[LETTER := 0x4000]
    ensures NameWire(LETTER, map[LETTER := 0x4000]) == Some([192, 0])
  {
    assert Strip(LETTER) == LETTER && FindDot(LETTER, 1) == 1 && FindDot(LETTER, 0) == 1;
    assert Split(LETTER) == [LETTER];
    assert Head(LETTER) == LETTER;
    var first := NameWire(LETTER, map[]).value;
    assert first == [1, 97, 0];
    assert Strip([]) == [];
  }

  /** The filler ends at 2^14 and leaves the table empty. */
  lemma FillerPut(h: Bytes) returns (d: Draft)
    requires |h| == 12
    ensures PutRecord(Draft(h, map[]), Filler()) == Some(d)
    ensures |d.msg| == 0x4000 && d.names == map[] && h <= d.msg
    ensures ReadRecord(d.msg, 12) == RecordRead(RecordMeaning(Filler()), 0x4000)
  {
    LetterNames();
    var o := Draft(h, map[]);
    var e := PutRecord(o, Filler());
    d := e.value;
    assert Holds(o);
    PutRecordReads(o, Filler(), d);
  }

  /** The alias after it: its name is entered at 2^14, and its target points to offset 0. */
  lemma AliasPut(d: Draft) returns (e: Draft)
    requires |d.msg| == 0x4000 && d.names == map[]
    ensures PutRecord(d, Alias()) == Some(e)
    ensures e.msg == d.msg + [1, 97, 0] + (FixedFields(Alias()) + U16(2)) + [192, 0]
  {
    LetterNames();
    assert map[] + map[LETTER := 0x4000] == map[LETTER := 0x4000];
    e := PutRecord(d, Alias()).value;
  }

  /** Read back, the target is not the name that was written but the root. */
  lemma AliasMisread(d: Draft, e: Draft)
    requires |d.msg| == 0x4000 && d.names == map[] && d.msg[0] == 0
    requires e.msg == d.msg + [1, 97, 0] + (FixedFields(Alias()) + U16(2)) + [192, 0]
    ensures var r := ReadRecord(e.msg, 0x4000);
            r.RecordRead? ==> r.rec.data == ReadTarget([])
  {
    hide FixedFields, ReadName, Labels, NameWire, WellFormed, ReadU16, ReadU32;
    LetterNames();
    assert TableHolds(d.msg, d.names);
    var named := d.msg + [1, 97, 0];
    var fixed := FixedFields(Alias()) + U16(2);
    NameReads(d.msg, d.names, LETTER, [1, 97, 0]);
    assert e.msg == named + (fixed + [192, 0]) by {
      ConcatAssoc(named, fixed, [192, 0]);
    }
    ReadNameExtend(named, fixed + [192, 0], 0x4000, 0x4000);
    FixedFieldsRead(named, Alias(), 2, [192, 0]);
    PointerToRoot(e.msg, 0x4003 + 10);
  }

  lemma PointerToRoot(msg: Bytes, at: nat)
    requires 0 < at && at + 2 <= |msg| && msg[at] == 192 && msg[at + 1] == 0 && msg[0] == 0
    ensures ReadName(msg, at, at) == NameRead([], at + 2)
  {
    assert ReadName(msg, 0, 0) == NameRead([], 1);
  }

  lemma FarHeader()
    ensures MessageHeader(FarMessage())[0] == 0
  {
  }

  lemma FarWellFormed()
    ensures WellFormedMessage(FarMessage())
  {
    hide WellFormed;
    LetterNames();
  }

  /** A message read as two records whose second has a root target is not the far message. */
  lemma FarRead(msg: Bytes, rest: Bytes)
    requires msg == MessageHeader(FarMessage()) + rest
    requires ReadRecord(msg, 12).RecordRead? && ReadRecord(msg, 12).next == 0x4000
    requires ReadRecord(msg, 0x4000).RecordRead? ==> ReadRecord(msg, 0x4000).rec.data == ReadTarget([])
    ensures ReadMessage(msg) != Some(MessageMeaning(FarMessage()))
  {
    hide ReadRecord, Header, SetBit, ClearBit, ReadU16;
    var m := FarMessage();
    LetterNames();
    HeaderReads(0, ReplyFields(m), 0, 2, 0, 0, rest);
    var first, second := ReadRecord(msg, 12), ReadRecord(msg, 0x4000);
    if second.RecordRead? {
      assert ReadRecords(msg, second.next, 0) == RecordsRead([], second.next);
      assert ReadRecords(msg, 0x4000, 1) == RecordsRead([second.rec] + [], second.next);
      assert ReadRecords(msg, 12, 2).recs[1] == second.rec;
      assert MessageMeaning(m).answers[1].data == ReadTarget([LETTER]);
    } else {
      assert ReadRecords(msg, 0x4000, 1) == NoRecords;
    }
  }

  /** The bound on the message is needed: this one fits its limit, and is not read as it was made. */
  lemma FarNameMisread(width: nat)
    requires width == 2 || width == 4
    ensures var m := FarMessage();
            && WellFormedMessage(m) && PutMessage(m).Some? && |PutMessage(m).value.msg| == 0x4000 + 15
            && Encode(m, 0xFFFF, width) == Some(PutMessage(m).value.msg)
            && ReadMessage(PutMessage(m).value.msg) != Some(MessageMeaning(m))
  {
    hide PutRecord, ReadRecord, Filler, FixedFields, ReadName, U16, Labels;
    var m := FarMessage();
    var h := MessageHeader(m);
    var d := FillerPut(h);
    var e := AliasPut(d);
    FarHeader();
    assert d.msg[0] == h[0];
    FarWellFormed();
    assert AllRecords(m) == [Filler(), Alias()];
    assert [Filler(), Alias()][1..] == [Alias()] && [Alias()][1..] == [];
    assert PutRecords(d, [Alias()]) == Some(e);
    assert PutMessage(m) == Some(e);
    AliasMisread(d, e);
    var tail := [1, 97, 0] + (FixedFields(Alias()) + U16(2)) + [192, 0];
    assert e.msg == d.msg + tail;
    ReadRecordExtend(d.msg, tail, 12);
    assert e.msg == h + e.msg[12..];
    FarRead(e.msg, e.msg[12..]);
  }
}
