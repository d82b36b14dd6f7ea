/**
 DNS replies: what src/dns/message.cpp, rr.cpp and question.cpp put on the wire, as functions
 that thread the message so far and the table of pointable suffixes; a reader of whole messages
 following sections 4.1.1 to 4.1.4 of RFC 1035; and the round trip between the two.
 */
module DnsMessage {
  import opened WireBytes
  import opened DnsNames

  const CNAME: uint16 := 5
  const PTR: uint16 := 12
  const SRV: uint16 := 33
  const OPT: uint16 := 41
  const OPT_COOKIE: uint16 := 10

  const QR: uint16 := 0x8000
  const TC: uint16 := 0x0200
  const AD: uint16 := 0x0020

  // ----- what is encoded -----

  /** RR_bytes, RR_target and RR_SRV. */
  datatype RData =
    | Raw(bytes: Bytes)
    | Target(name: Bytes)
    | Srv(priority: uint16, weight: uint16, port: uint16, target: Bytes)

  datatype Record = Record(name: Bytes, rtype: uint16, rclass: uint16, ttl: int, data: RData)

  datatype Question = Question(name: Bytes, qtype: uint16, qclass: uint16)

  /** PRR_EDNS: the class field carries the payload limit, the ttl field flags. */
  datatype Edns = Edns(maxPayload: uint16, flags: int, cookie: Option<Bytes>)

  datatype Message = Message(
    id: uint16, fields: uint16, question: Option<Question>,
    answers: seq<Record>, authorities: seq<Record>, edns: Option<Edns>)

  function CookieOption(cookie: Bytes): Bytes {
    U16(OPT_COOKIE) + U16(|cookie| % 0x1_0000) + cookie
  }

  function EdnsRecord(e: Edns): Record {
    Record([], OPT, e.maxPayload, e.flags,
           Raw(match e.cookie case None => [] case Some(c) => CookieOption(c)))
  }

  function SetBit(f: uint16, bit: uint16): uint16
    requires bit in {QR, TC, AD}
  {
    if f / bit % 2 == 1 then f else f + bit
  }

  function ClearBit(f: uint16, bit: uint16): uint16
    requires bit in {QR, TC, AD}
  {
    if f / bit % 2 == 1 then f - bit else f
  }

  /** The header fields of a reply: QR always set, AD always cleared. */
  function ReplyFields(m: Message): uint16 {
    ClearBit(SetBit(m.fields, QR), AD)
  }

  // ----- what is written -----

  /** The message so far and the suffixes a later name may point to. */
  datatype Draft = Draft(msg: Bytes, names: NameTable)

  function Header(id: uint16, fields: uint16, qd: uint16, an: uint16, ns: uint16, ar: uint16): (h: Bytes)
    ensures |h| == 12
  {
    U16s(id, fields, qd) + U16s(an, ns, ar)
  }

  /** Three 16-bit integers in a row. */
  function U16s(a: uint16, b: uint16, c: uint16): (r: Bytes)
    ensures |r| == 6
  {
    U16(a) + U16(b) + U16(c)
  }

  function PutRaw(d: Draft, b: Bytes): Draft {
    Draft(d.msg + b, d.names)
  }

  function PutName(d: Draft, name: Bytes): Option<Draft> {
    match NameWire(name, d.names)
    case None => None
    case Some(w) => Some(Draft(d.msg + w, d.names + NameEntries(name, d.names, |d.msg|)))
  }

  function PutQuestion(d: Draft, q: Question): Option<Draft> {
    match PutName(d, q.name)
    case None => None
    case Some(n) => Some(PutRaw(n, U16(q.qtype) + U16(q.qclass)))
  }

  /** The data of a record: raw bytes, a compressed name, or three integers and one. */
  function DataWire(data: RData, names: NameTable): Option<Bytes> {
    match data
    case Raw(bytes) => Some(bytes)
    case Target(name) => NameWire(name, names)
    case Srv(priority, weight, port, target) =>
      match NameWire(target, names)
      case None => None
      case Some(w) => Some(U16s(priority, weight, port) + w)
  }

  function DataEntries(data: RData, names: NameTable, at: nat): NameTable {
    match data
    case Raw(_) => map[]
    case Target(name) => NameEntries(name, names, at)
    case Srv(_, _, _, target) => NameEntries(target, names, at + 6)
  }

  function FixedFields(r: Record): (b: Bytes)
    ensures |b| == 8
  {
    U16(r.rtype) + U16(r.rclass) + U32(r.ttl % 0x1_0000_0000)
  }

  /** A record: its name, the fixed fields, the length of its data and the data. */
  function PutRecord(d: Draft, r: Record): Option<Draft> {
    match PutName(d, r.name)
    case None => None
    case Some(n) =>
      match DataWire(r.data, n.names)
      case None => None
      case Some(w) =>
        Some(Draft(n.msg + (FixedFields(r) + U16(|w| % 0x1_0000)) + w,
                   n.names + DataEntries(r.data, n.names, |n.msg| + 10)))
  }

  function PutRecords(d: Draft, rs: seq<Record>): Option<Draft>
    decreases |rs|
  {
    if rs == [] then Some(d)
    else match PutRecord(d, rs[0])
      case None => None
      case Some(e) => PutRecords(e, rs[1..])
  }

  function MessageHeader(m: Message): (h: Bytes)
    ensures |h| == 12
  {
    Header(m.id, ReplyFields(m), if m.question.Some? then 1 else 0, |m.answers| % 0x1_0000,
           |m.authorities| % 0x1_0000, if m.edns.Some? then 1 else 0)
  }

  /** A header, whatever it holds, and the question after it. */
  function Opening(header: Bytes, question: Option<Question>): Option<Draft> {
    var d := Draft(header, map[]);
    if question.Some? then PutQuestion(d, question.value) else Some(d)
  }

  /** The header and the question: what survives truncation. */
  function PutOpening(m: Message): Option<Draft> {
    Opening(MessageHeader(m), m.question)
  }

  function AllRecords(m: Message): seq<Record> {
    m.answers + m.authorities + (if m.edns.Some? then [EdnsRecord(m.edns.value)] else [])
  }

  function PutMessage(m: Message): Option<Draft> {
    match PutOpening(m)
    case None => None
    case Some(d) => PutRecords(d, AllRecords(m))
  }

  // ----- the size limit and truncation -----

  /** Bytes written over part of a buffer. */
  function Overwrite(b: Bytes, at: nat, v: Bytes): (r: Bytes)
    ensures |r| == |b|
  {
    seq(|b|, i requires 0 <= i < |b| => if at <= i < at + |v| then v[i - at] else b[i])
  }

  /**
   The integers written back into the header on truncation go through an overloaded library
   call whose operand is an `int` expression, so their width is a parameter here: 2 bytes as
   the fields have, or 4.
   */
  function Wide(v: uint16, width: nat): (b: Bytes)
    requires width == 2 || width == 4
    ensures |b| == width
  {
    if width == 2 then U16(v) else U32(v)
  }

  /** The reply when the records do not fit: the opening, and the EDNS record if that fits. */
  function Truncated(m: Message, opening: Bytes, limit: nat, width: nat): Bytes
    requires width == 2 || width == 4
  {
    var h := Overwrite(Overwrite(opening, 2, Wide(SetBit(ReplyFields(m), TC), width)), 6, Wide(0, width));
    if m.edns.None? then h
    else if |h + EdnsWire(m.edns.value)| <= limit then h + EdnsWire(m.edns.value)
    else Overwrite(h, 10, Wide(0, width))
  }

  /** The EDNS record: its name is the root and its data holds no name. */
  function EdnsWire(e: Edns): Bytes {
    var r := EdnsRecord(e);
    [0] + (FixedFields(r) + U16(|r.data.bytes| % 0x1_0000)) + r.data.bytes
  }

  /** None when not even the header and question fit, and the exception reaches the caller. */
  function Encode(m: Message, limit: nat, width: nat): Option<Bytes>
    requires width == 2 || width == 4
  {
    match PutOpening(m)
    case None => None
    case Some(o) =>
      if |o.msg| > limit then None else
      var full := PutRecords(o, AllRecords(m));
      if full.Some? && |full.value.msg| <= limit then Some(full.value.msg)
      else Some(Truncated(m, o.msg, limit, width))
  }

  // ----- the reader -----

  datatype ReadRData =
    | ReadRaw(bytes: Bytes)
    | ReadTarget(labels: seq<Bytes>)
    | ReadSrv(priority: uint16, weight: uint16, port: uint16, labels: seq<Bytes>)

  datatype Rec = Rec(labels: seq<Bytes>, rtype: uint16, rclass: uint16, ttl: uint32, data: ReadRData)
  datatype Ques = Ques(labels: seq<Bytes>, qtype: uint16, qclass: uint16)
  datatype Msg = Msg(
    id: uint16, fields: uint16, questions: seq<Ques>,
    answers: seq<Rec>, authorities: seq<Rec>, additional: seq<Rec>)

  datatype RecordRead = NoRecord | RecordRead(rec: Rec, next: nat)
  datatype RecordsRead = NoRecords | RecordsRead(recs: seq<Rec>, next: nat)
  datatype QuestionRead = NoQuestion | QuestionRead(ques: Ques, next: nat)
  datatype QuestionsRead = NoQuestions | QuestionsRead(quess: seq<Ques>, next: nat)

  /** The data of a record, which must end exactly at `end`. */
  function ReadData(msg: Bytes, rtype: uint16, at: nat, end: nat): Option<ReadRData>
    requires at <= end <= |msg|
  {
    if rtype == CNAME || rtype == PTR then
      var n := ReadName(msg, at, at);
      if n.NameRead? && n.next == end then Some(ReadTarget(n.labels)) else None
    else if rtype == SRV then
      if at + 6 > end then None else
      var n := ReadName(msg, at + 6, at + 6);
      if n.NameRead? && n.next == end then
        Some(ReadSrv(ReadU16(msg, at), ReadU16(msg, at + 2), ReadU16(msg, at + 4), n.labels))
      else None
    else Some(ReadRaw(msg[at..end]))
  }

  function ReadRecord(msg: Bytes, at: nat): RecordRead {
    match ReadName(msg, at, at)
    case NoName => NoRecord
    case NameRead(ls, p) =>
      if p + 10 > |msg| then NoRecord else
      var end := p + 10 + ReadU16(msg, p + 8);
      if end > |msg| then NoRecord else
      match ReadData(msg, ReadU16(msg, p), p + 10, end)
      case None => NoRecord
      case Some(data) =>
        RecordRead(Rec(ls, ReadU16(msg, p), ReadU16(msg, p + 2), ReadU32(msg, p + 4), data), end)
  }

  function ReadRecords(msg: Bytes, at: nat, count: nat): (r: RecordsRead)
    ensures r.RecordsRead? ==> |r.recs| == count
    decreases count
  {
    if count == 0 then RecordsRead([], at)
    else match ReadRecord(msg, at)
      case NoRecord => NoRecords
      case RecordRead(rec, next) =>
        match ReadRecords(msg, next, count - 1)
        case NoRecords => NoRecords
        case RecordsRead(recs, end) => RecordsRead([rec] + recs, end)
  }

  function ReadQuestion(msg: Bytes, at: nat): QuestionRead {
    match ReadName(msg, at, at)
    case NoName => NoQuestion
    case NameRead(ls, p) =>
      if p + 4 > |msg| then NoQuestion
      else QuestionRead(Ques(ls, ReadU16(msg, p), ReadU16(msg, p + 2)), p + 4)
  }

  function ReadQuestions(msg: Bytes, at: nat, count: nat): QuestionsRead
    decreases count
  {
    if count == 0 then QuestionsRead([], at)
    else match ReadQuestion(msg, at)
      case NoQuestion => NoQuestions
      case QuestionRead(q, next) =>
        match ReadQuestions(msg, next, count - 1)
        case NoQuestions => NoQuestions
        case QuestionsRead(qs, end) => QuestionsRead([q] + qs, end)
  }

  /** A whole message: header, then the four sections by their counts, and nothing after. */
  function ReadMessage(msg: Bytes): Option<Msg> {
    if |msg| < 12 then None else
    var qs := ReadQuestions(msg, 12, ReadU16(msg, 4));
    if qs.NoQuestions? then None else
    var an := ReadRecords(msg, qs.next, ReadU16(msg, 6));
    if an.NoRecords? then None else
    var ns := ReadRecords(msg, an.next, ReadU16(msg, 8));
    if ns.NoRecords? then None else
    var ar := ReadRecords(msg, ns.next, ReadU16(msg, 10));
    if ar.NoRecords? || ar.next != |msg| then None else
    Some(Msg(ReadU16(msg, 0), ReadU16(msg, 2), qs.quess, an.recs, ns.recs, ar.recs))
  }

  // ----- what should be read -----

  predicate WellFormedData(rtype: uint16, data: RData) {
    match data
    case Raw(_) => rtype !in {CNAME, PTR, SRV}
    case Target(name) => rtype in {CNAME, PTR} && WellFormed(name)
    case Srv(_, _, _, target) => rtype == SRV && WellFormed(target)
  }

  predicate WellFormedRecord(r: Record) {
    WellFormed(r.name) && WellFormedData(r.rtype, r.data)
  }

  predicate WellFormedMessage(m: Message) {
    && (m.question.Some? ==> WellFormed(m.question.value.name))
    && (forall r :: r in m.answers ==> WellFormedRecord(r))
    && (forall r :: r in m.authorities ==> WellFormedRecord(r))
  }

  function DataMeaning(data: RData): ReadRData {
    match data
    case Raw(bytes) => ReadRaw(bytes)
    case Target(name) => ReadTarget(Labels(name))
    case Srv(priority, weight, port, target) => ReadSrv(priority, weight, port, Labels(target))
  }

  function RecordMeaning(r: Record): Rec {
    Rec(Labels(r.name), r.rtype, r.rclass, r.ttl % 0x1_0000_0000, DataMeaning(r.data))
  }

  function RecordsMeaning(rs: seq<Record>): seq<Rec> {
    seq(|rs|, i requires 0 <= i < |rs| => RecordMeaning(rs[i]))
  }

  function QuestionsMeaning(q: Option<Question>): seq<Ques> {
    if q.Some? then [Ques(Labels(q.value.name), q.value.qtype, q.value.qclass)] else []
  }

  function EdnsMeaning(e: Option<Edns>): seq<Rec> {
    if e.Some? then [RecordMeaning(EdnsRecord(e.value))] else []
  }

  function MessageMeaning(m: Message): Msg {
    Msg(m.id, ReplyFields(m), QuestionsMeaning(m.question),
        RecordsMeaning(m.answers), RecordsMeaning(m.authorities), EdnsMeaning(m.edns))
  }
}
