/**
 Passing an upstream answer through: RawMessage of src/dns/message.cpp parses a message
 without interpreting record names or data, and prints it again. Printing what was parsed is
 byte exact, except for question names of a kind pinned down here.
 */
module RawDns {
  import opened WireBytes
  import opened DnsNames
  import opened DnsMessage
  import opened DnsRoundTrip

  datatype RawRR = RawRR(name: Bytes, rtype: uint16, rclass: uint16, ttl: uint32, rdata: Bytes)

  datatype RawMessage = RawMessage(
    id: uint16, fields: uint16, questions: seq<Question>,
    answers: seq<RawRR>, authorities: seq<RawRR>, additional: seq<RawRR>, edns: Option<Edns>)

  /** A value taken from the front of a buffer, and the rest of the buffer. */
  datatype Taken<+T> = NotTaken | Taken(value: T, rest: Bytes)

  // ----- parsing -----

  /** The labels at the front of `b`, uncompressed, with no limit on their length but the byte's. */
  function TakeLabels(b: Bytes): Taken<seq<Bytes>>
    decreases |b|
  {
    if b == [] then NotTaken
    else if b[0] == 0 then Taken([], b[1..])
    else if b[0] as int >= |b| - 1 then NotTaken
    else match TakeLabels(b[1 + b[0]..])
      case NotTaken => NotTaken
      case Taken(ls, rest) => Taken([b[1..1 + b[0]]] + ls, rest)
  }

  /** Every label followed by a dot. */
  function DotEach(ls: seq<Bytes>): Bytes {
    if ls == [] then [] else ls[0] + [DOT] + DotEach(ls[1..])
  }

  /** The text extract_name gives for labels: a lone dot for the root. */
  function NameText(ls: seq<Bytes>): Bytes {
    if ls == [] then [DOT] else DotEach(ls)
  }

  /** extract_name */
  function TakeName(b: Bytes): Taken<Bytes> {
    match TakeLabels(b)
    case NotTaken => NotTaken
    case Taken(ls, rest) => Taken(NameText(ls), rest)
  }

  /** Question::extract; a failure after the name leaves the buffer past the name. */
  function TakeQuestion(b: Bytes): Taken<Question> {
    match TakeName(b)
    case NotTaken => NotTaken
    case Taken(name, rest) =>
      if |rest| < 4 then NotTaken
      else Taken(Question(name, ReadU16(rest, 0), ReadU16(rest, 2)), rest[4..])
  }

  /** extract_name_data: how many bytes of `b` are a name, pointers not followed. */
  function NameDataLength(b: Bytes): Option<nat>
    decreases |b|
  {
    if b == [] then None
    else if b[0] > 63 then (if |b| < 2 then None else Some(2))
    else if b[0] == 0 then Some(1)
    else if 1 + b[0] as int >= |b| then None
    else match NameDataLength(b[1 + b[0]..])
      case None => None
      case Some(n) => Some(1 + b[0] as int + n)
  }

  lemma {:induction false} NameDataLengthBound(b: Bytes)
    ensures NameDataLength(b).Some? ==> 1 <= NameDataLength(b).value <= |b|
    decreases |b|
  {
    if b != [] && 0 < b[0] <= 63 && 1 + b[0] as int < |b| {
      NameDataLengthBound(b[1 + b[0]..]);
    }
  }

  function TakeRR(b: Bytes): Taken<RawRR> {
    match NameDataLength(b)
    case None => NotTaken
    case Some(n) =>
      NameDataLengthBound(b);
      if n + 10 > |b| then NotTaken else
      var len := ReadU16(b, n + 8);
      if n + 10 + len > |b| then NotTaken
      else Taken(RawRR(b[..n], ReadU16(b, n), ReadU16(b, n + 2), ReadU32(b, n + 4), b[n + 10..n + 10 + len]),
                 b[n + 10 + len..])
  }

  function TakeRRs(b: Bytes, count: nat): Taken<seq<RawRR>>
    decreases count
  {
    if count == 0 then Taken([], b)
    else match TakeRR(b)
      case NotTaken => NotTaken
      case Taken(rr, rest) =>
        match TakeRRs(rest, count - 1)
        case NotTaken => NotTaken
        case Taken(rrs, end) => Taken([rr] + rrs, end)
  }

  /** Questions that all extract; the parser itself carries on past one that does not. */
  function TakeQuestions(b: Bytes, count: nat): Taken<seq<Question>>
    decreases count
  {
    if count == 0 then Taken([], b)
    else match TakeQuestion(b)
      case NotTaken => NotTaken
      case Taken(q, rest) =>
        match TakeQuestions(rest, count - 1)
        case NotTaken => NotTaken
        case Taken(qs, end) => Taken([q] + qs, end)
  }

  /** A message all of whose parts are there, with nothing after them. */
  function ParseWhole(b: Bytes): Option<RawMessage> {
    if |b| < 12 then None else
    var q := TakeQuestions(b[12..], ReadU16(b, 4));
    if q.NotTaken? then None else
    var an := TakeRRs(q.rest, ReadU16(b, 6));
    if an.NotTaken? then None else
    var ns := TakeRRs(an.rest, ReadU16(b, 8));
    if ns.NotTaken? then None else
    var ar := TakeRRs(ns.rest, ReadU16(b, 10));
    if ar.NotTaken? || ar.rest != [] then None else
    Some(RawMessage(ReadU16(b, 0), ReadU16(b, 2), q.value, an.value, ns.value, ar.value, None))
  }

  // ----- printing -----

  /** encode_name without a table, of a name from which a final dot is first removed. */
  function QuestionWire(q: Question): Option<Bytes> {
    match NameWire(Strip(q.name), map[])
    case None => None
    case Some(w) => Some(w + (U16(q.qtype) + U16(q.qclass)))
  }

  function QuestionsWire(qs: seq<Question>): Option<Bytes> {
    if qs == [] then Some([])
    else match QuestionWire(qs[0])
      case None => None
      case Some(w) =>
        match QuestionsWire(qs[1..])
        case None => None
        case Some(rest) => Some(w + rest)
  }

  function RRFixed(rr: RawRR): (b: Bytes)
    ensures |b| == 10
  {
    U16(rr.rtype) + U16(rr.rclass) + U32(rr.ttl) + U16(|rr.rdata| % 0x1_0000)
  }

  /** RawRR::write_to */
  function RRWire(rr: RawRR): Bytes {
    rr.name + RRFixed(rr) + rr.rdata
  }

  function RRsWire(rrs: seq<RawRR>): Bytes {
    if rrs == [] then [] else RRWire(rrs[0]) + RRsWire(rrs[1..])
  }

  /** PRR_EDNS::to_raw */
  function EdnsRaw(e: Edns): RawRR {
    RawRR([0], OPT, e.maxPayload, e.flags % 0x1_0000_0000,
          match e.cookie case None => [] case Some(c) => CookieOption(c))
  }

  function RawHeader(m: RawMessage): (h: Bytes)
    ensures |h| == 12
  {
    Header(m.id, m.fields, |m.questions| % 0x1_0000, |m.answers| % 0x1_0000, |m.authorities| % 0x1_0000,
           (|m.additional| + if m.edns.Some? then 1 else 0) % 0x1_0000)
  }

  function RawRecords(m: RawMessage): seq<RawRR> {
    m.answers + m.authorities + m.additional + (if m.edns.Some? then [EdnsRaw(m.edns.value)] else [])
  }

  /** What is printed when something did not fit; `opening` is what is kept of the front. */
  function RawTruncated(m: RawMessage, opening: Bytes, noQuestions: bool, limit: nat, width: nat): (r: Bytes)
    requires width == 2 || width == 4
    ensures |opening| <= limit ==> |r| <= limit
  {
    var h := Overwrite(opening, 2, Wide(SetBit(m.fields, TC), width));
    var h := if noQuestions then Overwrite(h, 4, U16(0)) else h;
    var h := Overwrite(Overwrite(h, 6, U16(0)), 8, U16(0));
    if m.edns.None? then Overwrite(h, 10, U16(0))
    else
      var h := Overwrite(h, 10, U16(1));
      var w := RRWire(EdnsRaw(m.edns.value));
      if |h| + |w| <= limit then h + w else Overwrite(h, 10, U16(0))
  }

  /** RawMessage::encode; None when the header itself does not fit. */
  function RawEncode(m: RawMessage, limit: nat, width: nat): (r: Option<Bytes>)
    requires width == 2 || width == 4
    ensures r.Some? ==> |r.value| <= limit
  {
    var qs := QuestionsWire(m.questions);
    if limit < 12 then None
    else if qs.None? || 12 + |qs.value| > limit then Some(RawTruncated(m, RawHeader(m), true, limit, width))
    else
      var opening := RawHeader(m) + qs.value;
      var full := opening + RRsWire(RawRecords(m));
      if |full| <= limit then Some(full) else Some(RawTruncated(m, opening, false, limit, width))
  }

  /** The option record is the same bytes whether it is encoded or turned raw and written. */
  lemma RawOptionSame(e: Edns)
    ensures RRWire(EdnsRaw(e)) == EdnsWire(e)
  {
  }

  // ----- records and header: always exact -----

  lemma FixedExact(b: Bytes, n: nat, rr: RawRR)
    requires n + 10 <= |b|
    requires rr.rtype == ReadU16(b, n) && rr.rclass == ReadU16(b, n + 2) && rr.ttl == ReadU32(b, n + 4)
    requires |rr.rdata| == ReadU16(b, n + 8)
    ensures RRFixed(rr) == b[n..n + 10]
  {
    hide ReadU16, ReadU32, U16, U32;
    ReadU16Bytes(b, n);
    ReadU16Bytes(b, n + 2);
    ReadU32Bytes(b, n + 4);
    ReadU16Bytes(b, n + 8);
    assert b[n..n + 10] == b[n..n + 2] + b[n + 2..n + 4] + b[n + 4..n + 8] + b[n + 8..n + 10];
  }

  lemma FourSlices(b: Bytes, i: nat, j: nat, k: nat)
    requires i <= j <= k <= |b|
    ensures b == b[..i] + b[i..j] + b[j..k] + b[k..]
  {
  }

  /** Taking a record and writing it again gives the bytes it was taken from. */
  lemma TakeRRExact(b: Bytes)
    requires TakeRR(b).Taken?
    ensures b == RRWire(TakeRR(b).value) + TakeRR(b).rest
  {
    hide NameDataLength, ReadU16, ReadU32, RRFixed;
    NameDataLengthBound(b);
    var n := NameDataLength(b).value;
    var rr := TakeRR(b).value;
    FixedExact(b, n, rr);
    FourSlices(b, n, n + 10, n + 10 + |rr.rdata|);
  }

  lemma {:induction false} TakeRRsExact(b: Bytes, count: nat)
    requires TakeRRs(b, count).Taken?
    ensures b == RRsWire(TakeRRs(b, count).value) + TakeRRs(b, count).rest
    ensures |TakeRRs(b, count).value| == count
    decreases count
  {
    hide TakeRR, RRWire;
    if count > 0 {
      TakeRRExact(b);
      var rest := TakeRR(b).rest;
      TakeRRsExact(rest, count - 1);
      var rrs := TakeRRs(rest, count - 1);
      assert ([TakeRR(b).value] + rrs.value)[1..] == rrs.value;
      ConcatAssoc(RRWire(TakeRR(b).value), RRsWire(rrs.value), rrs.rest);
    }
  }

  // ----- question names -----

  /** Labels as they stand on the wire, uncompressed. */
  function LabelsWire(ls: seq<Bytes>): Bytes
    requires forall i :: 0 <= i < |ls| ==> 1 <= |ls[i]| <= 255
  {
    if ls == [] then [0] else [|ls[0]|] + ls[0] + LabelsWire(ls[1..])
  }

  ghost predicate WireLabels(ls: seq<Bytes>) {
    forall i :: 0 <= i < |ls| ==> 1 <= |ls[i]| <= 255
  }

  lemma LabelsWireCons(l: Bytes, ls: seq<Bytes>)
    requires 1 <= |l| <= 255 && WireLabels(ls)
    ensures WireLabels([l] + ls) && LabelsWire([l] + ls) == ([|l|] + l) + LabelsWire(ls)
  {
  }

  lemma TakeLabelsCons(b: Bytes) returns (n: nat, t: Taken<seq<Bytes>>)
    requires TakeLabels(b).Taken? && b[0] != 0
    ensures 1 < n < |b| && n == 1 + (b[0] as int) && t == TakeLabels(b[n..]) && t.Taken?
    ensures TakeLabels(b) == Taken([b[1..n]] + t.value, t.rest)
  {
    n := 1 + (b[0] as int);
    t := TakeLabels(b[n..]);
  }

  lemma TakeLabelsRoot(b: Bytes)
    requires TakeLabels(b).Taken? && b[0] == 0
    ensures WireLabels(TakeLabels(b).value) && b == LabelsWire(TakeLabels(b).value) + TakeLabels(b).rest
  {
    assert b == [0] + b[1..];
  }

  lemma TakeLabelsSome(b: Bytes)
    requires TakeLabels(b).Taken?
    ensures b != []
  {
  }

  lemma {:induction false} TakeLabelsExact(b: Bytes)
    requires TakeLabels(b).Taken?
    ensures WireLabels(TakeLabels(b).value)
    ensures b == LabelsWire(TakeLabels(b).value) + TakeLabels(b).rest
    decreases |b|
  {
    hide TakeLabels, LabelsWire;
    TakeLabelsSome(b);
    if b[0] == 0 {
      TakeLabelsRoot(b);
    } else {
      var n, t := TakeLabelsCons(b);
      TakeLabelsExact(b[n..]);
      var l := b[1..n];
      LabelsWireCons(l, t.value);
      assert b == ([|l|] + l) + b[n..];
      ConcatAssoc([|l|] + l, LabelsWire(t.value), t.rest);
    }
  }

  /** Short enough to print, and with no dot after its first byte. */
  predicate Plain(l: Bytes) {
    |l| <= 63 && FindDot(l, 1) == |l|
  }

  predicate AllPlain(ls: seq<Bytes>) {
    ls == [] || (Plain(ls[0]) && AllPlain(ls[1..]))
  }

  /** The names that print as they were read. */
  predicate Reprintable(ls: seq<Bytes>) {
    ls == [] || (AllPlain(ls) && ls[|ls| - 1] != [DOT])
  }

  /** Where the printer looks for the first dot of joined labels. */
  lemma DottedFirstDot(ls: seq<Bytes>)
    requires ls != [] && |ls[0]| >= 1
    ensures var s := Dotted(ls);
            FindDot(s, 1) == if FindDot(ls[0], 1) < |ls[0]| then FindDot(ls[0], 1) else |ls[0]|
  {
    var s := Dotted(ls);
    var l := ls[0];
    assert forall i :: 0 <= i < |l| ==> s[i] == l[i];
    if |ls| > 1 {
      assert s[|l|] == DOT;
    }
    var i, j := FindDot(s, 1), FindDot(l, 1);
    if j < |l| {
      assert s[j] == DOT;
      assert i <= j;
    }
  }

  lemma {:induction false} DottedLength(ls: seq<Bytes>)
    requires ls != [] && WireLabels(ls)
    ensures |LabelsWire(ls)| == |Dotted(ls)| + 2
  {
    if |ls| > 1 {
      DottedLength(ls[1..]);
    } else {
      assert ls[1..] == [];
    }
  }

  lemma {:induction false} SuffixWireLength(s: Bytes)
    ensures SuffixWire(s, map[]).Some? ==> |SuffixWire(s, map[]).value| == |s| + 2
    decreases |s|
  {
    hide FindDot;
    if HasMore(s) {
      SuffixWireLength(Tail(s));
    }
  }

  /** Joined labels print as the labels exactly when every label is plain. */
  lemma {:induction false} DottedPrints(ls: seq<Bytes>)
    requires ls != [] && WireLabels(ls)
    ensures SuffixWire(Dotted(ls), map[]) == Some(LabelsWire(ls)) <==> AllPlain(ls)
    decreases |ls|
  {
    hide FindDot;
    var s, l := Dotted(ls), ls[0];
    DottedFirstDot(ls);
    if |ls| == 1 {
      OneLabelPrints(ls);
    } else {
      DottedPrints(ls[1..]);
      ManyLabelsPrint(ls);
    }
  }

  lemma OneLabelPrints(ls: seq<Bytes>)
    requires |ls| == 1 && WireLabels(ls)
    ensures SuffixWire(Dotted(ls), map[]) == Some(LabelsWire(ls)) <==> AllPlain(ls)
  {
    hide FindDot;
    var l := ls[0];
    assert Dotted(ls) == l && ls[1..] == [];
    assert LabelsWire(ls) == [|l|] + l + [0];
    var w := SuffixWire(l, map[]);
    if FindDot(l, 1) < |l| {
      if w.Some? {
        assert w.value[0] == FindDot(l, 1);
      }
    } else {
      assert Head(l) == l;
    }
  }

  /** A plain first label is printed as it stands, before the rest. */
  lemma FirstLabelPrints(ls: seq<Bytes>)
    requires |ls| > 1 && WireLabels(ls) && Plain(ls[0])
    ensures var w := SuffixWire(Dotted(ls[1..]), map[]);
            SuffixWire(Dotted(ls), map[]) == if w.Some? then Some([|ls[0]|] + ls[0] + w.value) else None
  {
    hide FindDot;
    var s, l := Dotted(ls), ls[0];
    DottedFirstDot(ls);
    assert Head(s) == l;
    assert Tail(s) == Dotted(ls[1..]);
  }

  lemma FirstLabelDiffers(ls: seq<Bytes>)
    requires |ls| > 1 && WireLabels(ls) && !Plain(ls[0])
    ensures SuffixWire(Dotted(ls), map[]) != Some(LabelsWire(ls))
  {
    hide FindDot, Dotted;
    var w := SuffixWire(Dotted(ls), map[]);
    DottedFirstDot(ls);
    if w.Some? {
      assert w.value[0] == FindDot(ls[0], 1);
      assert LabelsWire(ls)[0] == |ls[0]|;
    }
  }

  lemma ManyLabelsPrint(ls: seq<Bytes>)
    requires |ls| > 1 && WireLabels(ls)
    requires SuffixWire(Dotted(ls[1..]), map[]) == Some(LabelsWire(ls[1..])) <==> AllPlain(ls[1..])
    ensures SuffixWire(Dotted(ls), map[]) == Some(LabelsWire(ls)) <==> AllPlain(ls)
  {
    hide FindDot, SuffixWire, Dotted, Plain;
    var l := ls[0];
    if Plain(l) {
      FirstLabelPrints(ls);
      var w := SuffixWire(Dotted(ls[1..]), map[]);
      if w.Some? {
        CancelLeft([|l|] + l, w.value, LabelsWire(ls[1..]));
      }
    } else {
      FirstLabelDiffers(ls);
    }
  }

  lemma {:induction false} DotEachIsDotted(ls: seq<Bytes>)
    requires ls != []
    ensures DotEach(ls) == Dotted(ls) + [DOT]
    decreases |ls|
  {
    if |ls| > 1 {
      DotEachIsDotted(ls[1..]);
      ConcatAssoc(ls[0] + [DOT], Dotted(ls[1..]), [DOT]);
    } else {
      assert DotEach(ls[1..]) == [];
    }
  }

  lemma {:induction false} DottedLast(ls: seq<Bytes>)
    requires ls != [] && WireLabels(ls)
    ensures var s, l := Dotted(ls), ls[|ls| - 1];
            s != [] && s[|s| - 1] == l[|l| - 1]
    decreases |ls|
  {
    if |ls| > 1 {
      DottedLast(ls[1..]);
      var s, tail := Dotted(ls), Dotted(ls[1..]);
      assert s == ls[0] + [DOT] + tail;
    }
  }

  /** What the printer is given for a name read as `ls`, after both removals of a final dot. */
  lemma PrintedText(ls: seq<Bytes>)
    requires ls != [] && WireLabels(ls)
    ensures var l := ls[|ls| - 1];
            Strip(NameText(ls)) == Dotted(ls)
            && Strip(Dotted(ls)) == if l[|l| - 1] == DOT then Dotted(ls)[..|Dotted(ls)| - 1] else Dotted(ls)
  {
    DotEachIsDotted(ls);
    DottedLast(ls);
    var t := NameText(ls);
    assert t[|t| - 1] == DOT && t[..|t| - 1] == Dotted(ls);
  }

  /** A plain label ends in a dot only when it is a dot. */
  lemma {:induction false} PlainLast(ls: seq<Bytes>)
    requires ls != [] && WireLabels(ls) && AllPlain(ls)
    ensures var l := ls[|ls| - 1]; l[|l| - 1] == DOT <==> l == [DOT]
    decreases |ls|
  {
    if |ls| > 1 {
      PlainLast(ls[1..]);
    } else {
      var l := ls[0];
      if |l| > 1 {
        assert l[|l| - 1] != DOT;
      }
    }
  }

  /**
   A question name prints as it was read exactly when its labels are at most 63 bytes, have no
   dot after their first byte, and the last is not a lone dot. It never prints longer.
   */
  lemma NamePrints(ls: seq<Bytes>)
    requires WireLabels(ls)
    ensures var w := NameWire(Strip(NameText(ls)), map[]);
            && (w == Some(LabelsWire(ls)) <==> Reprintable(ls))
            && (w.Some? ==> |w.value| <= |LabelsWire(ls)|)
  {
    hide SuffixWire, Dotted, DotEach, FindDot, AllPlain;
    if ls == [] {
      assert Strip([DOT]) == [];
    } else {
      PrintedText(ls);
      DottedLength(ls);
      DottedPrints(ls);
      DottedLast(ls);
      var s := Dotted(ls);
      SuffixWireLength(s);
      SuffixWireLength(s[..|s| - 1]);
      if AllPlain(ls) {
        PlainLast(ls);
      }
      assert ls[|ls| - 1] == [DOT] ==> ls[|ls| - 1][0] == DOT;
    }
  }

  // ----- whole messages -----

  /** Every question name of the message prints as it was read. */
  predicate QuestionsReprintable(b: Bytes, count: nat)
    decreases count
  {
    count == 0 ||
    (TakeLabels(b).Taken? && Reprintable(TakeLabels(b).value) && TakeQuestion(b).Taken? &&
     QuestionsReprintable(TakeQuestion(b).rest, count - 1))
  }

  /** One question: it prints as it was read exactly when its name does, and never longer. */
  lemma TakeQuestionPrints(b: Bytes)
    requires TakeQuestion(b).Taken?
    ensures var t, w := TakeQuestion(b), QuestionWire(TakeQuestion(b).value);
            && |t.rest| <= |b| && t.rest == b[|b| - |t.rest|..]
            && (w.Some? ==> |w.value| + |t.rest| <= |b|)
            && (w.Some? && w.value + t.rest == b <==> Reprintable(TakeLabels(b).value))
  {
    hide TakeLabels, LabelsWire, NameWire, Reprintable, Strip, NameText;
    TakeLabelsExact(b);
    var ls, after := TakeLabels(b).value, TakeLabels(b).rest;
    NamePrints(ls);
    var q, rest := TakeQuestion(b).value, TakeQuestion(b).rest;
    ReadU16Bytes(after, 0);
    ReadU16Bytes(after, 2);
    var ints := U16(q.qtype) + U16(q.qclass);
    assert after == ints + rest by {
      assert after == after[0..2] + after[2..4] + after[4..];
    }
    assert after == b[|b| - |after|..] && rest == after[4..];
    var n := NameWire(Strip(q.name), map[]);
    if n.Some? {
      ConcatAssoc(n.value, ints, rest);
      CancelRight(n.value, LabelsWire(ls), after);
    }
  }

  lemma CancelRight(a: Bytes, b: Bytes, c: Bytes)
    ensures a + c == b + c <==> a == b
  {
    if a + c == b + c {
      assert |a| == |b|;
      assert a == (a + c)[..|a|] && b == (b + c)[..|b|];
    }
  }

  lemma CancelLeft(a: Bytes, b: Bytes, c: Bytes)
    ensures a + b == a + c <==> b == c
  {
    if a + b == a + c {
      assert b == (a + b)[|a|..] && c == (a + c)[|a|..];
    }
  }

  /** All the questions. */
  lemma {:induction false} TakeQuestionsPrint(b: Bytes, count: nat)
    requires TakeQuestions(b, count).Taken?
    ensures var t, w := TakeQuestions(b, count), QuestionsWire(TakeQuestions(b, count).value);
            && |t.value| == count && |t.rest| <= |b|
            && (w.Some? ==> |w.value| + |t.rest| <= |b|)
            && (w.Some? && w.value + t.rest == b <==> QuestionsReprintable(b, count))
    decreases count
  {
    hide TakeLabels, Reprintable, TakeQuestion, QuestionWire;
    if count > 0 {
      var t := TakeQuestion(b);
      TakeQuestionPrints(b);
      TakenHasLabels(b);
      TakeQuestionsPrint(t.rest, count - 1);
      var more := TakeQuestions(t.rest, count - 1);
      assert ([t.value] + more.value)[1..] == more.value;
      var w, ws := QuestionWire(t.value), QuestionsWire(more.value);
      if w.Some? && ws.Some? {
        FrontAndRest(b, w.value, t.rest, ws.value, more.rest);
      }
    }
  }

  lemma TakenHasLabels(b: Bytes)
    requires TakeQuestion(b).Taken?
    ensures b != [] && TakeLabels(b).Taken?
  {
  }

  /** A front and a rest, neither longer than it should be, make the whole only if both are exact. */
  lemma FrontAndRest(b: Bytes, w: Bytes, mid: Bytes, ws: Bytes, rest: Bytes)
    requires |w| + |mid| <= |b| && |ws| + |rest| <= |mid| && mid == b[|b| - |mid|..]
    ensures w + ws + rest == b <==> w + mid == b && ws + rest == mid
  {
  }

  lemma HeaderExact(b: Bytes)
    requires |b| >= 12
    ensures Header(ReadU16(b, 0), ReadU16(b, 2), ReadU16(b, 4), ReadU16(b, 6), ReadU16(b, 8), ReadU16(b, 10)) == b[..12]
  {
  }

  lemma {:induction false} RRsWireSplit(a: seq<RawRR>, b: seq<RawRR>)
    ensures RRsWire(a + b) == RRsWire(a) + RRsWire(b)
    decreases |a|
  {
    hide RRWire;
    if a == [] {
      assert a + b == b;
    } else {
      assert (a + b)[1..] == a[1..] + b;
      RRsWireSplit(a[1..], b);
      ConcatAssoc(RRWire(a[0]), RRsWire(a[1..]), RRsWire(b));
    }
  }

  /** The records of a whole message print as they were. */
  lemma RecordsExact(b: Bytes, m: RawMessage)
    requires ParseWhole(b) == Some(m)
    ensures |b| >= 12 && TakeQuestions(b[12..], ReadU16(b, 4)).Taken?
    ensures TakeQuestions(b[12..], ReadU16(b, 4)).rest == RRsWire(RawRecords(m))
    ensures m.questions == TakeQuestions(b[12..], ReadU16(b, 4)).value
    ensures |m.answers| == ReadU16(b, 6) && |m.authorities| == ReadU16(b, 8) && |m.additional| == ReadU16(b, 10)
  {
    hide TakeQuestions, TakeRRs, RRsWire, ReadU16;
    var q := TakeQuestions(b[12..], ReadU16(b, 4));
    var an := TakeRRs(q.rest, ReadU16(b, 6));
    var ns := TakeRRs(an.rest, ReadU16(b, 8));
    var ar := TakeRRs(ns.rest, ReadU16(b, 10));
    TakeRRsExact(q.rest, ReadU16(b, 6));
    TakeRRsExact(an.rest, ReadU16(b, 8));
    TakeRRsExact(ns.rest, ReadU16(b, 10));
    RRsWireSplit(an.value + ns.value, ar.value);
    RRsWireSplit(an.value, ns.value);
    assert RawRecords(m) == an.value + ns.value + ar.value;
    ConcatAssoc(RRsWire(an.value), RRsWire(ns.value), RRsWire(ar.value));
    assert RRsWire(ar.value) + [] == RRsWire(ar.value);
  }

  /**
   A message of at most 65535 bytes, parsed whole and printed at the largest size, comes out
   byte for byte -- record names and data with their pointers included -- exactly when its
   question names are reprintable.
   */
  lemma RawByteExact(b: Bytes, m: RawMessage, width: nat)
    requires width == 2 || width == 4
    requires ParseWhole(b) == Some(m) && |b| <= 0xFFFF
    ensures RawEncode(m, 0xFFFF, width) == Some(b) <==> QuestionsReprintable(b[12..], ReadU16(b, 4))
  {
    hide ParseWhole, TakeQuestions, QuestionsReprintable, RRsWire, QuestionsWire, Header, RawTruncated, ReadU16, RawRecords;
    RecordsExact(b, m);
    var count: nat := ReadU16(b, 4);
    var body := b[12..];
    TakeQuestionsPrint(body, count);
    var t := TakeQuestions(body, count);
    HeaderExact(b);
    ParsedHeader(b, m);
    var qs := QuestionsWire(m.questions);
    if qs.None? {
      NoQuestionsShorter(b, m, width);
    } else {
      ConcatAssoc(RawHeader(m), qs.value, t.rest);
      assert b == b[..12] + body;
      CancelLeft(b[..12], qs.value + t.rest, body);
    }
  }

  lemma ParsedHeader(b: Bytes, m: RawMessage)
    requires ParseWhole(b) == Some(m)
    requires |m.questions| == ReadU16(b, 4)
    requires |m.answers| == ReadU16(b, 6) && |m.authorities| == ReadU16(b, 8) && |m.additional| == ReadU16(b, 10)
    ensures |b| >= 12
    ensures RawHeader(m)
            == Header(ReadU16(b, 0), ReadU16(b, 2), ReadU16(b, 4), ReadU16(b, 6), ReadU16(b, 8), ReadU16(b, 10))
  {
    hide TakeQuestions, TakeRRs, Header, ReadU16;
  }

  /** A question that cannot be printed leaves a bare header, which is not the message. */
  lemma NoQuestionsShorter(b: Bytes, m: RawMessage, width: nat)
    requires width == 2 || width == 4
    requires ParseWhole(b) == Some(m) && QuestionsWire(m.questions).None?
    ensures RawEncode(m, 0xFFFF, width) != Some(b)
  {
  }

  /**
   A single label holding a dot is read as the same text as two labels, and printed as two:
   the message that asks for it does not come out as it went in.
   */
  lemma DottedLabelChanged(width: nat)
    requires width == 2 || width == 4
    ensures var b := Header(7, 0, 1, 0, 0, 0) + [3, 97, DOT, 98, 0, 0, 1, 0, 1];
            && ParseWhole(b).Some?
            && ParseWhole(b).value.questions == [Question([97, DOT, 98, DOT], 1, 1)]
            && RawEncode(ParseWhole(b).value, 0xFFFF, width) != Some(b)
  {
    hide RawEncode, Header;
    var body: Bytes := [3, 97, DOT, 98, 0, 0, 1, 0, 1];
    var b := Header(7, 0, 1, 0, 0, 0) + body;
    HeaderReads(7, 0, 1, 0, 0, 0, body);
    var l: Bytes := [97, DOT, 98];
    assert b[12..] == body && body[4..] == [0, 0, 1, 0, 1];
    assert TakeLabels(body[4..]) == Taken([], body[5..]);
    assert body[1..4] == l;
    assert TakeLabels(body) == Taken([l] + [], body[5..]);
    assert [l] + [] == [l] && DotEach([l][1..]) == [];
    assert DotEach([l]) == [97, DOT, 98, DOT];
    assert body[5..] == [0, 1, 0, 1] && body[5..][4..] == [];
    assert TakeName(body) == Taken([97, DOT, 98, DOT], body[5..]);
    assert TakeQuestion(body) == Taken(Question([97, DOT, 98, DOT], 1, 1), []);
    assert TakeQuestions([], 0) == Taken([], []);
    assert TakeQuestions(body, 1) == Taken([Question([97, DOT, 98, DOT], 1, 1)] + [], []);
    assert FindDot(l, 1) == 1;
    assert !Plain(([l] + [])[0]);
    RawByteExact(b, ParseWhole(b).value, width);
  }

  /**
   The header of a truncated print is that of a truncated answer -- TC set, the counts of what
   is there -- exactly when the flags are written back two bytes wide.
   */
  lemma RawTruncatedHeader(m: RawMessage, opening: Bytes, noQuestions: bool, limit: nat, width: nat)
    requires width == 2 || width == 4
    requires RawHeader(m) <= opening
    ensures var t := RawTruncated(m, opening, noQuestions, limit, width);
            var edns := m.edns.Some? && |opening| + |RRWire(EdnsRaw(m.edns.value))| <= limit;
            && |t| >= 12
            && (t[..12] == Header(m.id, SetBit(m.fields, TC), if noQuestions then 0 else |m.questions| % 0x1_0000, 0, 0,
                                  if edns then 1 else 0)
                <==> width == 2)
  {
    hide RRWire, EdnsRaw;
    var t := RawTruncated(m, opening, noQuestions, limit, width);
    var f := SetBit(m.fields, TC);
    if width == 4 {
      assert U32(f)[0] == 0 && U32(f)[1] == 0;
      assert t[2] == 0;
      assert f >= 0x200;
    }
  }
}
