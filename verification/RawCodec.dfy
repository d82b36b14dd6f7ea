/**
 The loops of the raw parser and printer, proved against the functions of RawDns.
 */
module RawCodec {
  import opened WireBytes
  import opened DnsNames
  import opened DnsMessage
  import opened DnsWriter
  import opened RawDns

  // ----- parsing -----

  lemma {:induction false} DotEachAppend(a: seq<Bytes>, b: seq<Bytes>)
    ensures DotEach(a + b) == DotEach(a) + DotEach(b)
    decreases |a|
  {
    if a == [] {
      assert a + b == b;
    } else {
      assert (a + b)[1..] == a[1..] + b;
      DotEachAppend(a[1..], b);
      ConcatAssoc(a[0] + [DOT], DotEach(a[1..]), DotEach(b));
    }
  }

  /** The labels of `buf` are those read so far followed by those of `b`. */
  ghost predicate LabelProgress(buf: Bytes, done: seq<Bytes>, b: Bytes) {
    match TakeLabels(b)
    case NotTaken => TakeLabels(buf).NotTaken?
    case Taken(ls, rest) => TakeLabels(buf) == Taken(done + ls, rest)
  }

  lemma LabelStep(buf: Bytes, done: seq<Bytes>, b: Bytes)
    requires LabelProgress(buf, done, b) && b != [] && 0 < b[0] as int < |b| - 1
    ensures LabelProgress(buf, done + [b[1..1 + b[0]]], b[1 + b[0]..])
  {
    var l := b[1..1 + b[0]];
    var t := TakeLabels(b[1 + b[0]..]);
    if t.Taken? {
      assert done + ([l] + t.value) == done + [l] + t.value;
    }
  }

  /** extract_name: on failure the caller's buffer is left alone. */
  method ExtractName(buf: Bytes) returns (name: Option<Bytes>, rest: Bytes)
    ensures match TakeName(buf)
            case NotTaken => name == None && rest == buf
            case Taken(text, after) => name == Some(text) && rest == after
  {
    hide LabelProgress;
    if buf == [] {
      return None, buf;
    }
    var text: Bytes := [];
    ghost var done: seq<Bytes> := [];
    var b := buf;
    LabelsBegin(buf);
    while true
      invariant LabelProgress(buf, done, b) && text == DotEach(done)
      decreases |b|
    {
      LabelsEnd(buf, done, b);
      if b == [] {
        return None, buf;
      }
      var len := b[0] as int;
      if len == 0 {
        b := b[1..];
        break;
      }
      if len >= |b| - 1 {
        return None, buf;
      }
      LabelStep(buf, done, b);
      DotEachAppend(done, [b[1..1 + len]]);
      OneDot(b[1..1 + len]);
      text := text + (b[1..1 + len] + [DOT]);
      done := done + [b[1..1 + len]];
      b := b[1 + len..];
    }
    if text == [] {
      text := text + [DOT];
      assert text == [DOT];
    }
    return Some(text), b;
  }

  lemma LabelsBegin(buf: Bytes)
    ensures LabelProgress(buf, [], buf)
  {
    if TakeLabels(buf).Taken? {
      assert [] + TakeLabels(buf).value == TakeLabels(buf).value;
    }
  }

  /** What each exit of the loop means for the whole buffer. */
  lemma LabelsEnd(buf: Bytes, done: seq<Bytes>, b: Bytes)
    requires LabelProgress(buf, done, b)
    ensures b == [] || (b[0] > 0 && b[0] as int >= |b| - 1) ==> TakeLabels(buf).NotTaken?
    ensures b != [] && b[0] == 0 ==> TakeLabels(buf) == Taken(done, b[1..])
    ensures done != [] ==> DotEach(done) != []
  {
    if b != [] && b[0] == 0 {
      assert done + [] == done;
    }
  }

  lemma OneDot(l: Bytes)
    ensures DotEach([l]) == l + [DOT]
  {
  }

  /** extract_name_data */
  method ExtractNameData(buf: Bytes) returns (data: Option<Bytes>, rest: Bytes)
    ensures match NameDataLength(buf)
            case None => data == None && rest == buf
            case Some(n) => n <= |buf| && data == Some(buf[..n]) && rest == buf[n..]
  {
    hide NameDataLength;
    var p := 0;
    assert buf[0..] == buf;
    while true
      invariant p <= |buf|
      invariant var r := NameDataLength(buf[p..]);
                NameDataLength(buf) == if r.None? then None else Some(p + r.value)
      decreases |buf| - p
    {
      NameDataAt(buf, p);
      if p == |buf| {
        return None, buf;
      }
      var len := buf[p] as int;
      p := p + 1;
      if len > 63 {
        if p == |buf| {
          return None, buf;
        }
        p := p + 1;
        break;
      }
      if len == 0 {
        break;
      }
      if p + len >= |buf| {
        return None, buf;
      }
      p := p + len;
    }
    return Some(buf[..p]), buf[p..];
  }

  lemma NameDataAt(buf: Bytes, p: nat)
    requires p <= |buf|
    ensures NameDataLength(buf[p..]) ==
            if p == |buf| then None
            else if buf[p] > 63 then (if p + 1 == |buf| then None else Some(2))
            else if buf[p] == 0 then Some(1)
            else
              var next := p + 1 + buf[p] as int;
              if next >= |buf| then None
              else if NameDataLength(buf[next..]).None? then None
              else Some(1 + buf[p] as int + NameDataLength(buf[next..]).value)
  {
    if p < |buf| && 0 < buf[p] <= 63 && p + 1 + (buf[p] as int) < |buf| {
      assert buf[p..][1 + buf[p]..] == buf[p + 1 + buf[p]..];
    }
  }

  /** Question::extract; on failure the question keeps its default value. */
  function NextQuestion(b: Bytes): (Question, Bytes) {
    match TakeQuestion(b)
    case Taken(q, rest) => (q, rest)
    case NotTaken => (Question([], 0, 0), if TakeName(b).Taken? then TakeName(b).rest else b)
  }

  function NextQuestions(b: Bytes, count: nat): (seq<Question>, Bytes)
    decreases count
  {
    if count == 0 then ([], b)
    else
      var (q, rest) := NextQuestion(b);
      var (qs, end) := NextQuestions(rest, count - 1);
      ([q] + qs, end)
  }

  /** RawMessage::parse, which does not look at whether its questions extracted. */
  function Parse(b: Bytes): Option<RawMessage> {
    if |b| < 12 then None else
    var (qs, rest) := NextQuestions(b[12..], ReadU16(b, 4));
    var an := TakeRRs(rest, ReadU16(b, 6));
    if an.NotTaken? then None else
    var ns := TakeRRs(an.rest, ReadU16(b, 8));
    if ns.NotTaken? then None else
    var ar := TakeRRs(ns.rest, ReadU16(b, 10));
    if ar.NotTaken? then None else
    Some(RawMessage(ReadU16(b, 0), ReadU16(b, 2), qs, an.value, ns.value, ar.value, None))
  }

  lemma {:induction false} TakenQuestionsAreNext(b: Bytes, count: nat)
    requires TakeQuestions(b, count).Taken?
    ensures NextQuestions(b, count) == (TakeQuestions(b, count).value, TakeQuestions(b, count).rest)
    decreases count
  {
    hide TakeQuestion;
    if count > 0 {
      TakenQuestionsAreNext(TakeQuestion(b).rest, count - 1);
    }
  }

  /** The parser accepts every whole message, with the same result. */
  lemma ParseAcceptsWhole(b: Bytes)
    requires ParseWhole(b).Some?
    ensures Parse(b) == ParseWhole(b)
  {
    hide TakeRRs, TakeQuestions, NextQuestions;
    TakenQuestionsAreNext(b[12..], ReadU16(b, 4));
  }

  // ----- byte exactness of every message the parser accepts -----

  lemma {:induction false} SuffixWireEnds(s: Bytes)
    requires SuffixWire(s, map[]).Some?
    ensures var w := SuffixWire(s, map[]).value; w != [] && w[|w| - 1] == 0
    decreases |s|
  {
    if HasMore(s) {
      SuffixWireEnds(Tail(s));
    }
  }

  lemma {:induction false} LabelsWireEnds(ls: seq<Bytes>)
    requires ls != [] && WireLabels(ls)
    ensures var w, l := LabelsWire(ls), ls[|ls| - 1];
            |w| >= 2 && w[|w| - 2] == l[|l| - 1]
    decreases |ls|
  {
    if |ls| > 1 {
      LabelsWireEnds(ls[1..]);
    } else {
      assert LabelsWire(ls[1..]) == [0];
    }
  }

  /** A name that prints as the front of what it was read from prints as all of it. */
  lemma PrintedFrontIsWhole(ls: seq<Bytes>, rest: Bytes)
    requires WireLabels(ls) && NameWire(Strip(NameText(ls)), map[]).Some?
    requires NameWire(Strip(NameText(ls)), map[]).value <= LabelsWire(ls) + rest
    ensures NameWire(Strip(NameText(ls)), map[]).value == LabelsWire(ls)
  {
    var n, w := NameWire(Strip(NameText(ls)), map[]).value, LabelsWire(ls);
    NamePrints(ls);
    assert n == w[..|n|];
    if ls == [] {
      assert Reprintable(ls);
    } else {
      assert w[0] == |ls[0]|;
      hide SuffixWire, Dotted, DotEach, FindDot, LabelsWire;
      PrintedText(ls);
      DottedLength(ls);
      DottedLast(ls);
      LabelsWireEnds(ls);
      var s := Strip(Dotted(ls));
      SuffixWireLength(s);
      if s != [] {
        SuffixWireEnds(s);
        assert n[|n| - 1] == w[|n| - 1];
        assert |n| == |w| || |n| == |w| - 1;
      }
    }
  }

  lemma UnreadQuestionWire()
    ensures QuestionWire(Question([], 0, 0)) == Some([0, 0, 0, 0, 0])
  {
    assert Strip([]) == [] && NameWire([], map[]) == Some([0]);
    assert [0] + (U16(0) + U16(0)) == [0, 0, 0, 0, 0];
  }

  lemma ZerosAreRead(b: Bytes)
    requires [0, 0, 0, 0, 0] <= b
    ensures TakeQuestion(b).Taken?
  {
    assert b[0] == 0;
  }

  /** A question that prints as the front of the bytes where it was looked for was read from them. */
  lemma QuestionFrontIsWhole(b: Bytes, w: Bytes)
    requires QuestionWire(NextQuestion(b).0) == Some(w) && w <= b
    ensures TakeQuestion(b).Taken? && Reprintable(TakeLabels(b).value) && b == w + TakeQuestion(b).rest
  {
    if TakeQuestion(b).NotTaken? {
      UnreadQuestionWire();
      ZerosAreRead(b);
    } else {
      hide TakeLabels, LabelsWire, NameWire, Reprintable, Strip, NameText;
      TakenHasLabels(b);
      TakeLabelsExact(b);
      TakeQuestionPrints(b);
      var ls, after := TakeLabels(b).value, TakeLabels(b).rest;
      NamePrints(ls);
      var n := NameWire(Strip(NameText(ls)), map[]).value;
      assert n <= w;
      PrefixTrans(n, w, b);
      PrintedFrontIsWhole(ls, after);
    }
  }

  lemma PrefixTrans(a: Bytes, b: Bytes, c: Bytes)
    requires a <= b <= c
    ensures a <= c
  {
  }

  /** Questions that print as the front of the bytes where they were looked for were all read. */
  lemma {:induction false} QuestionsFrontIsWhole(b: Bytes, count: nat, w: Bytes)
    requires QuestionsWire(NextQuestions(b, count).0) == Some(w) && w <= b
    ensures TakeQuestions(b, count).Taken? && QuestionsReprintable(b, count)
    ensures b == w + TakeQuestions(b, count).rest
    decreases count
  {
    hide TakeLabels, Reprintable, TakeQuestion, QuestionWire, NextQuestion;
    if count > 0 {
      var (q, rest) := NextQuestion(b);
      var (qs, end) := NextQuestions(rest, count - 1);
      assert ([q] + qs)[1..] == qs;
      var first, more := QuestionWire(q).value, QuestionsWire(qs).value;
      assert w == first + more;
      PrefixTrans(first, w, b);
      QuestionFrontIsWhole(b, first);
      NextIsTaken(b);
      assert b == first + rest;
      assert more <= rest by {
        assert b[..|w|] == w;
        assert rest[..|more|] == b[|first|..|w|] == more;
      }
      QuestionsFrontIsWhole(rest, count - 1, more);
      ConcatAssoc(first, more, TakeQuestions(rest, count - 1).rest);
      TakenHasLabels(b);
    }
  }

  lemma NextIsTaken(b: Bytes)
    requires TakeQuestion(b).Taken?
    ensures NextQuestion(b) == (TakeQuestion(b).value, TakeQuestion(b).rest)
  {
  }

  lemma {:induction false} NextQuestionsCount(b: Bytes, count: nat)
    ensures |NextQuestions(b, count).0| == count
    decreases count
  {
    if count > 0 {
      NextQuestionsCount(NextQuestion(b).1, count - 1);
    }
  }

  /** The parts of an accepted message, and what is left over after them. */
  lemma ParsedParts(b: Bytes, m: RawMessage) returns (body: Bytes, rest: Bytes, left: Bytes)
    requires Parse(b) == Some(m)
    ensures |b| >= 12 && body == b[12..] && b == b[..12] + body
    ensures (m.questions, rest) == NextQuestions(body, ReadU16(b, 4)) && |m.questions| == ReadU16(b, 4)
    ensures rest == RRsWire(RawRecords(m)) + left
    ensures |m.answers| == ReadU16(b, 6) && |m.authorities| == ReadU16(b, 8) && |m.additional| == ReadU16(b, 10)
    ensures RawHeader(m) == b[..12]
    ensures ParseWhole(b) == Some(m) <==> TakeQuestions(body, ReadU16(b, 4)).Taken? && left == []
  {
    hide NextQuestions, TakeRRs, RRsWire, ReadU16, TakeQuestions, Header;
    body := b[12..];
    var count: nat := ReadU16(b, 4);
    rest := NextQuestions(body, count).1;
    var an := TakeRRs(rest, ReadU16(b, 6));
    var ns := TakeRRs(an.rest, ReadU16(b, 8));
    var ar := TakeRRs(ns.rest, ReadU16(b, 10));
    left := ar.rest;
    NextQuestionsCount(body, count);
    HeaderExact(b);
    SectionsExact(rest, ReadU16(b, 6), ReadU16(b, 8), ReadU16(b, 10));
    assert RawRecords(m) == an.value + ns.value + ar.value;
    if TakeQuestions(body, count).Taken? {
      TakenQuestionsAreNext(body, count);
    }
  }

  /** Three sections print as they were. */
  lemma SectionsExact(b: Bytes, i: nat, j: nat, k: nat)
    requires TakeRRs(b, i).Taken? && TakeRRs(TakeRRs(b, i).rest, j).Taken?
    requires TakeRRs(TakeRRs(TakeRRs(b, i).rest, j).rest, k).Taken?
    ensures var an := TakeRRs(b, i);
            var ns := TakeRRs(an.rest, j);
            var ar := TakeRRs(ns.rest, k);
            && b == RRsWire(an.value + ns.value + ar.value) + ar.rest
            && |an.value| == i && |ns.value| == j && |ar.value| == k
  {
    hide TakeRRs, RRsWire;
    var an := TakeRRs(b, i);
    var ns := TakeRRs(an.rest, j);
    var ar := TakeRRs(ns.rest, k);
    TakeRRsExact(b, i);
    TakeRRsExact(an.rest, j);
    TakeRRsExact(ns.rest, k);
    RRsWireSplit(an.value + ns.value, ar.value);
    RRsWireSplit(an.value, ns.value);
    ConcatAssoc(RRsWire(an.value), RRsWire(ns.value), RRsWire(ar.value));
    ConcatAssoc(RRsWire(an.value), RRsWire(ns.value) + RRsWire(ar.value), ar.rest);
    ConcatAssoc(RRsWire(ns.value), RRsWire(ar.value), ar.rest);
  }

  /** A truncated print of a message without an option record announces no records. */
  lemma TruncatedCounts(m: RawMessage, opening: Bytes, noQuestions: bool, limit: nat, width: nat)
    requires (width == 2 || width == 4) && |opening| >= 12 && m.edns.None?
    ensures var t := RawTruncated(m, opening, noQuestions, limit, width);
            && |t| == |opening| && (noQuestions ==> ReadU16(t, 4) == 0)
            && ReadU16(t, 6) == 0 && ReadU16(t, 8) == 0 && ReadU16(t, 10) == 0
  {
  }

  /** So it is not the message it was parsed from. */
  lemma TruncatedDiffers(b: Bytes, m: RawMessage, width: nat)
    requires (width == 2 || width == 4) && Parse(b) == Some(m) && |b| <= 0xFFFF
    requires var qs := QuestionsWire(m.questions);
             qs.None? || 12 + |qs.value| + |RRsWire(RawRecords(m))| > 0xFFFF
    ensures RawEncode(m, 0xFFFF, width) != Some(b)
  {
    var body, rest, left := ParsedParts(b, m);
    var qs := QuestionsWire(m.questions);
    NothingToPrint();
    hide NextQuestions, QuestionsWire, RRsWire, RawTruncated, RawHeader, ParseWhole, ReadU16, TakeRRs;
    if qs.None? || 12 + |qs.value| > 0xFFFF {
      TruncatedCounts(m, RawHeader(m), true, 0xFFFF, width);
    } else {
      TruncatedCounts(m, RawHeader(m) + qs.value, false, 0xFFFF, width);
    }
  }

  lemma NothingToPrint()
    ensures QuestionsWire([]) == Some([]) && RRsWire([]) == []
  {
  }

  /**
   Every message of at most 65535 bytes that the parser accepts, unread questions and trailing
   bytes or not, is printed back byte for byte exactly when it is whole and its question names
   are reprintable.
   */
  lemma ParsedByteExact(b: Bytes, m: RawMessage, width: nat)
    requires (width == 2 || width == 4) && Parse(b) == Some(m) && |b| <= 0xFFFF
    ensures RawEncode(m, 0xFFFF, width) == Some(b) <==>
              ParseWhole(b) == Some(m) && QuestionsReprintable(b[12..], ReadU16(b, 4))
  {
    var body, rest, left := ParsedParts(b, m);
    var count: nat := ReadU16(b, 4);
    var qs := QuestionsWire(m.questions);
    hide Parse, ParseWhole, NextQuestions, QuestionsWire, RRsWire, RawTruncated, RawHeader, ReadU16, TakeQuestions,
      QuestionsReprintable, RawRecords;
    var records := RRsWire(RawRecords(m));
    if qs.None? || 12 + |qs.value| + |records| > 0xFFFF {
      TruncatedDiffers(b, m, width);
    } else if RawEncode(m, 0xFFFF, width) == Some(b) {
      ConcatAssoc(RawHeader(m), qs.value, records);
      CancelLeft(b[..12], qs.value + records, body);
      QuestionsFrontIsWhole(body, count, qs.value);
      TakenQuestionsAreNext(body, count);
      CancelLeft(qs.value, records, rest);
    }
    if ParseWhole(b) == Some(m) {
      RawByteExact(b, m, width);
    }
  }

  method ExtractQuestion(b: Bytes) returns (q: Question, rest: Bytes)
    ensures (q, rest) == NextQuestion(b)
  {
    var name, after := ExtractName(b);
    q, rest := Question([], 0, 0), after;
    if name.Some? && |after| >= 4 {
      q, rest := Question(name.value, ReadU16(after, 0), ReadU16(after, 2)), after[4..];
    }
  }

  method ExtractRR(b: Bytes) returns (rr: Option<RawRR>, rest: Bytes)
    ensures match TakeRR(b)
            case NotTaken => rr == None
            case Taken(r, after) => rr == Some(r) && rest == after
  {
    hide NameDataLength;
    var name;
    name, rest := ExtractNameData(b);
    if name.None? || |rest| < 10 {
      return None, rest;
    }
    ghost var n := |name.value|;
    var typ, cls, ttl, len := ReadU16(rest, 0), ReadU16(rest, 2), ReadU32(rest, 4), ReadU16(rest, 8);
    rest := rest[10..];
    if |rest| < len {
      return None, rest;
    }
    assert rest[..len] == b[n + 10..n + 10 + len] && rest[len..] == b[n + 10 + len..];
    return Some(RawRR(name.value, typ, cls, ttl, rest[..len])), rest[len..];
  }

  method ExtractRRs(b: Bytes, count: nat) returns (rrs: Option<seq<RawRR>>, rest: Bytes)
    ensures match TakeRRs(b, count)
            case NotTaken => rrs == None
            case Taken(rs, after) => rrs == Some(rs) && rest == after
  {
    hide TakeRR;
    var section: seq<RawRR> := [];
    rest := b;
    assert TakeRRs(b, count).Taken? ==> section + TakeRRs(b, count).value == TakeRRs(b, count).value;
    for i := 0 to count
      invariant match TakeRRs(rest, count - i)
                case NotTaken => TakeRRs(b, count).NotTaken?
                case Taken(rs, after) => TakeRRs(b, count) == Taken(section + rs, after)
    {
      ghost var more := TakeRR(rest);
      if more.Taken? && TakeRRs(more.rest, count - i - 1).Taken? {
        assert section + ([more.value] + TakeRRs(more.rest, count - i - 1).value)
            == section + [more.value] + TakeRRs(more.rest, count - i - 1).value;
      }
      var rr;
      rr, rest := ExtractRR(rest);
      if rr.None? {
        return None, rest;
      }
      section := section + [rr.value];
    }
    assert section + [] == section;
    return Some(section), rest;
  }

  method ExtractQuestions(b: Bytes, count: nat) returns (qs: seq<Question>, rest: Bytes)
    ensures (qs, rest) == NextQuestions(b, count)
  {
    hide NextQuestion;
    qs, rest := [], b;
    assert qs + NextQuestions(b, count).0 == NextQuestions(b, count).0;
    for i := 0 to count
      invariant var (more, end) := NextQuestions(rest, count - i);
                NextQuestions(b, count) == (qs + more, end)
    {
      ghost var (q', rest') := NextQuestion(rest);
      ghost var (more, end) := NextQuestions(rest', count - i - 1);
      assert qs + ([q'] + more) == qs + [q'] + more;
      var q;
      q, rest := ExtractQuestion(rest);
      qs := qs + [q];
    }
    assert qs + [] == qs;
  }

  /** RawMessage::parse */
  method ParseMessage(b: Bytes) returns (m: Option<RawMessage>)
    ensures m == Parse(b)
  {
    hide NextQuestions, TakeRRs;
    if |b| < 12 {
      return None;
    }
    var qs, rest := ExtractQuestions(b[12..], ReadU16(b, 4));
    var an, ns, ar;
    an, rest := ExtractRRs(rest, ReadU16(b, 6));
    if an.None? {
      return None;
    }
    ns, rest := ExtractRRs(rest, ReadU16(b, 8));
    if ns.None? {
      return None;
    }
    ar, rest := ExtractRRs(rest, ReadU16(b, 10));
    if ar.None? {
      return None;
    }
    return Some(RawMessage(ReadU16(b, 0), ReadU16(b, 2), qs, an.value, ns.value, ar.value, None));
  }

  // ----- printing -----

  /** RawRR::write_to: all of the record or nothing. */
  method WriteRR(w: Writer, rr: RawRR) returns (ok: bool)
    requires w.InBounds()
    modifies w`pos, w.tmp
    ensures w.InBounds()
    ensures ok <==> old(w.pos) + |RRWire(rr)| <= w.tmp.Length
    ensures w.Written() == if ok then old(w.Written()) + RRWire(rr) else old(w.Written())
  {
    hide RRFixed;
    var needed := |rr.name| + 10 + |rr.rdata|;
    if needed > w.tmp.Length - w.pos {
      return false;
    }
    ghost var before := w.Written();
    ok := w.PutBytes(rr.name);
    ok := w.PutBytes(RRFixed(rr));
    ok := w.PutBytes(rr.rdata);
    ConcatAssoc(before, rr.name, RRFixed(rr));
    ConcatAssoc(before, rr.name + RRFixed(rr), rr.rdata);
  }

  method WriteSection(w: Writer, rrs: seq<RawRR>) returns (ok: bool)
    requires w.InBounds()
    modifies w`pos, w.tmp
    ensures w.InBounds() && old(w.Written()) <= w.Written()
    ensures ok <==> old(w.pos) + |RRsWire(rrs)| <= w.tmp.Length
    ensures ok ==> w.Written() == old(w.Written()) + RRsWire(rrs)
  {
    hide RRWire;
    ghost var before := w.Written();
    assert rrs[0..] == rrs;
    for i := 0 to |rrs|
      invariant w.InBounds() && before <= w.Written()
      invariant before + RRsWire(rrs) == w.Written() + RRsWire(rrs[i..])
    {
      assert rrs[i..][0] == rrs[i] && rrs[i..][1..] == rrs[i + 1..];
      ConcatAssoc(w.Written(), RRWire(rrs[i]), RRsWire(rrs[i + 1..]));
      ok := WriteRR(w, rrs[i]);
      if !ok {
        return;
      }
    }
    assert RRsWire(rrs[|rrs|..]) == [];
    return true;
  }

  method WriteQuestion(w: Writer, q: Question) returns (ok: bool)
    requires w.InBounds()
    modifies w, w.tmp
    ensures w.InBounds() && old(w.Written()) <= w.Written()
    ensures var b := QuestionWire(q);
            if b.Some? && old(w.pos) + |b.value| <= w.tmp.Length then ok && w.Written() == old(w.Written()) + b.value
            else !ok
  {
    hide NameWire, Strip;
    ghost var before := w.Written();
    ok := w.EncodeName(Strip(q.name), false);
    if ok {
      ghost var n := NameWire(Strip(q.name), map[]).value;
      ConcatAssoc(before, n, U16(q.qtype) + U16(q.qclass));
      ConcatAssoc(w.Written(), U16(q.qtype), U16(q.qclass));
      ok := w.PutBytes(U16(q.qtype));
    }
    if ok {
      ok := w.PutBytes(U16(q.qclass));
    }
  }

  /** The questions, until one throws. */
  method WriteQuestions(w: Writer, qs: seq<Question>) returns (ok: bool)
    requires w.InBounds()
    modifies w, w.tmp
    ensures w.InBounds() && old(w.Written()) <= w.Written()
    ensures var b := QuestionsWire(qs);
            if b.Some? && old(w.pos) + |b.value| <= w.tmp.Length then ok && w.Written() == old(w.Written()) + b.value
            else !ok
  {
    hide QuestionWire;
    ghost var before := w.Written();
    assert qs[0..] == qs;
    for i := 0 to |qs|
      invariant w.InBounds() && before <= w.Written()
      invariant QuestionsWire(qs).Some? <==> QuestionsWire(qs[i..]).Some?
      invariant QuestionsWire(qs).Some? ==>
                  before + QuestionsWire(qs).value == w.Written() + QuestionsWire(qs[i..]).value
    {
      assert qs[i..][0] == qs[i] && qs[i..][1..] == qs[i + 1..];
      if QuestionsWire(qs).Some? {
        ConcatAssoc(w.Written(), QuestionWire(qs[i]).value, QuestionsWire(qs[i + 1..]).value);
      }
      ok := WriteQuestion(w, qs[i]);
      if !ok {
        return;
      }
    }
    assert QuestionsWire(qs[|qs|..]) == Some([]);
    return true;
  }

  /** The rewriting of the header and the retry of EDNS when something did not fit. */
  method TruncateRaw(w: Writer, m: RawMessage, end: nat, noQuestions: bool, width: nat)
    requires width == 2 || width == 4
    requires w.InBounds() && 12 <= end <= w.pos
    modifies w, w.tmp
    ensures w.InBounds() && w.Written() == RawTruncated(m, old(w.tmp[..end]), noQuestions, w.tmp.Length, width)
  {
    hide Overwrite, Wide, SetBit, RRWire, EdnsRaw, U16;
    w.pos := end;
    PatchFront(w, 2, Wide(SetBit(m.fields, TC), width));
    if noQuestions {
      PatchFront(w, 4, U16(0));
    }
    PatchFront(w, 6, U16(0));
    PatchFront(w, 8, U16(0));
    PatchFront(w, 10, U16(if m.edns.Some? then 1 else 0));
    if m.edns.Some? {
      var ok := WriteRR(w, EdnsRaw(m.edns.value));
      if !ok {
        PatchFront(w, 10, U16(0));
      }
    }
  }

  /** A write into what has been written already. */
  method PatchFront(w: Writer, at: nat, v: Bytes)
    requires w.InBounds()
    modifies w.tmp
    ensures w.Written() == Overwrite(old(w.Written()), at, v)
  {
    OverwriteTake(w.tmp[..], w.pos, at, v);
    ghost var before := w.tmp[..];
    assert before[..w.pos] == w.Written();
    w.Patch(at, v);
    assert w.tmp[..][..w.pos] == w.Written();
  }

  /** RawMessage::encode */
  method EncodeRaw(m: RawMessage, maxSize: bool, width: nat) returns (r: Option<Bytes>)
    requires width == 2 || width == 4
    ensures r == RawEncode(m, if maxSize then 0xFFFF else if m.edns.Some? then m.edns.value.maxPayload else 512, width)
  {
    hide QuestionsWire, RRsWire, RawTruncated, RawRecords, RawHeader;
    var limit: uint16 := if maxSize then 0xFFFF else if m.edns.Some? then m.edns.value.maxPayload else 512;
    var w := new Writer(limit);
    assert w.Written() == [];
    var ok := w.PutBytes(RawHeader(m));
    if !ok {
      return None;
    }
    assert w.Written() == RawHeader(m);
    PrintAfterHeader(w, m, width);
    return Some(w.tmp[..w.pos]);
  }

  /** The questions and the sections, or what is printed when they do not fit. */
  method PrintAfterHeader(w: Writer, m: RawMessage, width: nat)
    requires (width == 2 || width == 4) && w.InBounds() && w.Written() == RawHeader(m)
    modifies w, w.tmp
    ensures w.InBounds()
    ensures RawEncode(m, w.tmp.Length, width) == Some(w.Written())
  {
    hide QuestionsWire, RRsWire, RawTruncated, RawRecords, RawHeader;
    var headerEnd := w.pos;
    var ok := WriteQuestions(w, m.questions);
    if !ok {
      assert w.tmp[..headerEnd] == RawHeader(m);
      TruncateRaw(w, m, headerEnd, true, width);
      return;
    }
    var qEnd := w.pos;
    ghost var opening := w.Written();
    ok := WriteSections(w, m);
    if !ok {
      assert w.tmp[..qEnd] == opening;
      TruncateRaw(w, m, qEnd, false, width);
    }
  }

  /** The three sections and the EDNS record, until one does not fit. */
  method WriteSections(w: Writer, m: RawMessage) returns (ok: bool)
    requires w.InBounds()
    modifies w`pos, w.tmp
    ensures w.InBounds() && old(w.Written()) <= w.Written()
    ensures ok <==> old(w.pos) + |RRsWire(RawRecords(m))| <= w.tmp.Length
    ensures ok ==> w.Written() == old(w.Written()) + RRsWire(RawRecords(m))
  {
    hide RRsWire, EdnsRaw;
    ghost var before := w.Written();
    var edns := if m.edns.Some? then [EdnsRaw(m.edns.value)] else [];
    RRsWireSplit(m.answers + m.authorities + m.additional, edns);
    RRsWireSplit(m.answers + m.authorities, m.additional);
    RRsWireSplit(m.answers, m.authorities);
    ghost var a, b, c, d := RRsWire(m.answers), RRsWire(m.authorities), RRsWire(m.additional), RRsWire(edns);
    ConcatAssoc(before, a, b);
    ConcatAssoc(before, a + b, c);
    ConcatAssoc(before, a + b + c, d);
    ok := WriteSection(w, m.answers);
    if ok {
      ok := WriteSection(w, m.authorities);
    }
    if ok {
      ok := WriteSection(w, m.additional);
    }
    if ok {
      ok := WriteSection(w, edns);
    }
  }
}
