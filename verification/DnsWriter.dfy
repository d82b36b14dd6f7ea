/**
 The encoder itself: a fixed-size buffer filled through a moving span, a table of names and a
 running offset updated in place, with `std::out_of_range` as a `false` result. Each method is
 proved to write what the functions of DnsNames and DnsMessage say.
 */
module DnsWriter {
  import opened WireBytes
  import opened DnsNames
  import opened DnsMessage
  import opened DnsRoundTrip
  import opened DnsTruncation

  // ----- one pass of the name loop, on values -----

  /** What remains to be written after `written` completes the suffix `s` begun after `before`. */
  ghost predicate WireProgress(s: Bytes, names: NameTable, before: Bytes, at: nat, more: bool, written: Bytes)
    requires at <= |s|
  {
    var full := SuffixWire(s, names);
    if more then
      var rest := SuffixWire(s[at..], names);
      && (full.Some? <==> rest.Some?)
      && (full.Some? ==> before + full.value == written + rest.value)
    else full.Some? && before + full.value == written + [0]
  }

  /** The entries still to come complete those of `s`, and lookups of what remains are unaffected. */
  ghost predicate TableProgress(s: Bytes, names: NameTable, start: nat, at: nat, more: bool, table: NameTable, pos: nat)
    requires at <= |s|
  {
    && names + SuffixEntries(s, names, start) == table + (if more then SuffixEntries(s[at..], names, pos) else map[])
    && (more ==> SameUpTo(names, table, |s| - at))
  }

  ghost predicate SameUpTo(names: NameTable, table: NameTable, n: nat) {
    forall k: Bytes :: |k| <= n ==> (k in table <==> k in names) && (k in names ==> table[k] == names[k])
  }

  lemma FindDotShift(s: Bytes, at: nat, from: nat)
    requires at <= |s| && 1 <= from
    ensures FindDot(s, at + from) == at + FindDot(s[at..], from)
    decreases |s| - from
  {
  }

  lemma WireStep(s: Bytes, names: NameTable, before: Bytes, at: nat, written: Bytes)
    requires at <= |s| && WireProgress(s, names, before, at, true, written)
    requires s[at..] !in names && |Head(s[at..])| <= 63
    ensures var t := s[at..];
            var piece := [|Head(t)|] + Head(t);
            var next := at + FindDot(t, 1);
            WireProgress(s, names, before, if next < |s| then next + 1 else at, next < |s|, written + piece)
  {
    hide FindDot;
    var t := s[at..];
    var piece: Bytes := [|Head(t)|] + Head(t);
    var next := at + FindDot(t, 1);
    if next < |s| {
      assert Tail(t) == s[next + 1..];
      var rest := SuffixWire(Tail(t), names);
      if rest.Some? {
        ConcatAssoc(written, piece, rest.value);
      }
    } else {
      ConcatAssoc(written, piece, [0]);
    }
  }

  lemma {:induction false} SuffixEntriesShort(s: Bytes, names: NameTable, at: nat)
    ensures forall k :: k in SuffixEntries(s, names, at) ==> |k| <= |s|
    decreases |s|
  {
    hide FindDot;
    if s !in names && HasMore(s) {
      SuffixEntriesShort(Tail(s), names, at + 1 + |Head(s)|);
    }
  }

  lemma MergeSwap(table: NameTable, later: NameTable, k: Bytes, v: nat)
    requires k !in later
    ensures table + later[k := v] == table[k := v] + later
  {
  }

  lemma SameUpToAdd(names: NameTable, table: NameTable, n: nat, k: Bytes, v: nat, m: nat)
    requires SameUpTo(names, table, n) && m <= n && m < |k|
    ensures SameUpTo(names, table[k := v], m)
  {
  }

  lemma TableStep(s: Bytes, names: NameTable, start: nat, at: nat, table: NameTable, pos: nat)
    requires at <= |s| && TableProgress(s, names, start, at, true, table, pos)
    requires s[at..] !in names
    ensures var t := s[at..];
            var next := at + FindDot(t, 1);
            TableProgress(s, names, start, if next < |s| then next + 1 else at, next < |s|,
                          table[t := pos], pos + 1 + |Head(t)|)
  {
    hide FindDot, SameUpTo;
    var t := s[at..];
    var next := at + FindDot(t, 1);
    if next < |s| {
      assert Tail(t) == s[next + 1..];
      var later := SuffixEntries(Tail(t), names, pos + 1 + |Head(t)|);
      SuffixEntriesShort(Tail(t), names, pos + 1 + |Head(t)|);
      MergeSwap(table, later, t, pos);
      SameUpToAdd(names, table, |s| - at, t, pos, |s| - next - 1);
    } else {
      MergeSwap(table, map[], t, pos);
    }
  }

  lemma ProgressStart(s: Bytes, names: NameTable, before: Bytes, start: nat)
    ensures WireProgress(s, names, before, 0, true, before)
    ensures TableProgress(s, names, start, 0, true, names, start)
  {
  }

  /** The pass ends at a suffix of the table: a pointer completes the name. */
  lemma PointerEnds(s: Bytes, names: NameTable, before: Bytes, at: nat, written: Bytes)
    requires at <= |s| && WireProgress(s, names, before, at, true, written) && s[at..] in names
    ensures SuffixWire(s, names).Some?
    ensures before + SuffixWire(s, names).value == written + Pointer(names[s[at..]])
  {
  }

  lemma PointerAddsNothing(s: Bytes, names: NameTable, start: nat, at: nat, table: NameTable, pos: nat)
    requires at <= |s| && TableProgress(s, names, start, at, true, table, pos) && s[at..] in names
    ensures table == names + SuffixEntries(s, names, start)
  {
  }

  lemma LookupSame(s: Bytes, names: NameTable, start: nat, at: nat, table: NameTable, pos: nat)
    requires at <= |s| && TableProgress(s, names, start, at, true, table, pos)
    ensures s[at..] in table <==> s[at..] in names
    ensures s[at..] in names ==> table[s[at..]] == names[s[at..]]
  {
  }

  /** A label that is too long, or does not fit, means the name is not written. */
  lemma LabelFails(s: Bytes, names: NameTable, before: Bytes, at: nat, written: Bytes, room: nat)
    requires at <= |s| && WireProgress(s, names, before, at, true, written) && s[at..] !in names
    requires |Head(s[at..])| > 63 || |Head(s[at..])| >= room
    ensures SuffixWire(s, names).Some? ==> |before + SuffixWire(s, names).value| > |written| + room
  {
  }

  lemma NamesEnd(s: Bytes, names: NameTable, before: Bytes, start: nat, at: nat, written: Bytes, table: NameTable, pos: nat)
    requires at <= |s|
    ensures WireProgress(s, names, before, at, false, written) ==>
              SuffixWire(s, names).Some? && before + SuffixWire(s, names).value == written + [0]
    ensures TableProgress(s, names, start, at, false, table, pos) ==> table == names + SuffixEntries(s, names, start)
  {
  }

  class Writer {
    const tmp: array<byte>
    var pos: nat          // where the unwritten span `buf` begins in `tmp`
    var bufOffset: uint16 // the offset threaded beside the span
    var prevNames: NameTable

    ghost predicate InBounds()
      reads this
    {
      pos <= tmp.Length <= 0xFFFF
    }

    /** Between writes the running offset is the number of bytes written. */
    ghost predicate Valid()
      reads this
    {
      InBounds() && bufOffset == pos
    }

    function Written(): Bytes
      requires pos <= tmp.Length
      reads this, tmp
    {
      tmp[..pos]
    }

    constructor (limit: uint16)
      ensures Valid() && fresh(tmp) && tmp.Length == limit
      ensures pos == 0 && prevNames == map[]
    {
      tmp := new byte[limit](_ => 0);
      pos := 0;
      bufOffset := 0;
      prevNames := map[];
    }

    /** Copies `b` to the front of the span and moves the span past it, if there is room. */
    method PutBytes(b: Bytes) returns (ok: bool)
      requires InBounds()
      modifies this`pos, tmp
      ensures InBounds()
      ensures ok <==> old(pos) + |b| <= tmp.Length
      ensures ok ==> Written() == old(Written()) + b
      ensures !ok ==> pos == old(pos) && tmp[..] == old(tmp[..])
    {
      ok := |b| <= tmp.Length - pos;
      if ok {
        forall i | 0 <= i < |b| {
          tmp[pos + i] := b[i];
        }
        pos := pos + |b|;
        assert tmp[..pos] == old(tmp[..pos]) + b;
      }
    }

    method Advance(n: nat)
      modifies this`bufOffset
      ensures bufOffset == (old(bufOffset) + n) % 0x1_0000
    {
      bufOffset := (bufOffset + n) % 0x1_0000;
    }

    /** Writes a length-prefixed label and makes the suffix it begins pointable. */
    method PutLabel(check: Bytes, part: Bytes, track: bool)
      requires InBounds() && |part| <= 63 && pos + 1 + |part| <= tmp.Length
      requires track ==> bufOffset == pos
      modifies this, tmp
      ensures InBounds()
      ensures Written() == old(Written()) + ([|part|] + part)
      ensures track ==> bufOffset == pos && prevNames == old(prevNames)[check := old(pos)]
      ensures !track ==> prevNames == old(prevNames) && bufOffset == old(bufOffset)
    {
      var ok := PutBytes([|part|] + part);
      if track {
        prevNames := prevNames[check := bufOffset];
        Advance(1 + |part|);
      }
    }

    /** Writes the pointer or zero byte that ends a name. */
    method PutEnd(b: Bytes, track: bool) returns (ok: bool)
      requires InBounds() && (track ==> bufOffset == pos)
      modifies this`pos, this`bufOffset, tmp
      ensures InBounds()
      ensures ok <==> old(pos) + |b| <= tmp.Length
      ensures if ok then Written() == old(Written()) + b else Written() == old(Written())
      ensures ok && track ==> bufOffset == pos
      ensures !track ==> bufOffset == old(bufOffset)
    {
      ok := PutBytes(b);
      if ok && track {
        Advance(|b|);
      }
    }

    /**
     encode_name: labels until a suffix already in the table is met, then a pointer to it, else
     a zero byte. With `track` false there is no table and no offset to keep.
     */
    method EncodeName(name: Bytes, track: bool) returns (ok: bool)
      requires InBounds() && (track ==> bufOffset == pos)
      modifies this, tmp
      ensures InBounds() && old(Written()) <= Written()
      ensures var w := NameWire(name, if track then old(prevNames) else map[]);
              if w.Some? && old(pos) + |w.value| <= tmp.Length then ok && Written() == old(Written()) + w.value
              else !ok
      ensures ok && track ==>
                bufOffset == pos && prevNames == old(prevNames) + NameEntries(name, old(prevNames), old(pos))
      ensures !track ==> prevNames == old(prevNames) && bufOffset == old(bufOffset)
    {
      hide FindDot, SuffixWire, SuffixEntries, WireProgress, TableProgress, Pointer, Strip;
      var s := Strip(name);
      ghost var names: NameTable := if track then prevNames else map[];
      ghost var before, start := Written(), pos;
      if s == [] {
        ok := PutEnd([0], track);
        return;
      }
      var at := 0;
      var more := true;
      ProgressStart(s, names, before, start);
      while more
        invariant at <= |s| && InBounds() && before <= Written()
        invariant WireProgress(s, names, before, at, more, Written())
        invariant track ==> bufOffset == pos && TableProgress(s, names, start, at, more, prevNames, pos)
        invariant !track ==> prevNames == old(prevNames) && bufOffset == old(bufOffset)
        decreases more, |s| - at
      {
        var check := s[at..];
        if track {
          LookupSame(s, names, start, at, prevNames, pos);
        }
        if track && check in prevNames {
          PointerEnds(s, names, before, at, Written());
          PointerAddsNothing(s, names, start, at, prevNames, pos);
          ok := PutEnd(Pointer(prevNames[check]), track);
          return;
        }
        var next := FindDot(s, at + 1);
        FindDotShift(s, at, 1);
        var part := s[at..next];
        assert part == Head(check);
        if |part| > 63 || |part| >= tmp.Length - pos {
          LabelFails(s, names, before, at, Written(), tmp.Length - pos);
          ok := false;
          return;
        }
        WireStep(s, names, before, at, Written());
        if track {
          TableStep(s, names, start, at, prevNames, pos);
        }
        PutLabel(check, part, track);
        more := next < |s|;
        at := if more then next + 1 else at;
      }
      NamesEnd(s, names, before, start, at, Written(), prevNames, pos);
      ok := PutEnd([0], track);
    }

    ghost function Current(): Draft
      requires pos <= tmp.Length
      reads this, tmp
    {
      Draft(Written(), prevNames)
    }

    /** The outcome of a step that should produce `e`: it does if `e` exists and fits. */
    ghost predicate Outcome(ok: bool, e: Option<Draft>)
      reads this, tmp
    {
      && InBounds()
      && (if e.Some? && |e.value.msg| <= tmp.Length then ok && Valid() && Current() == e.value else !ok)
    }

    method EncodeQuestion(q: Question) returns (ok: bool)
      requires Valid()
      modifies this, tmp
      ensures Outcome(ok, PutQuestion(old(Current()), q)) && old(Written()) <= Written()
    {
      hide NameWire, NameEntries;
      ok := EncodeName(q.name, true);
      if !ok {
        return;
      }
      ghost var n := Written();
      ConcatAssoc(n, U16(q.qtype), U16(q.qclass));
      ok := PutBytes(U16(q.qtype));
      if ok {
        ok := PutBytes(U16(q.qclass));
      }
      if ok {
        Advance(4);
      }
    }

    /** The encode_data overloads. */
    method EncodeData(data: RData) returns (ok: bool)
      requires Valid()
      modifies this, tmp
      ensures InBounds() && old(Written()) <= Written()
      ensures var w := DataWire(data, old(prevNames));
              if w.Some? && old(pos) + |w.value| <= tmp.Length then
                && ok && Valid() && Written() == old(Written()) + w.value
                && prevNames == old(prevNames) + DataEntries(data, old(prevNames), old(pos))
              else !ok
    {
      hide NameWire, NameEntries;
      match data
      case Raw(bytes) =>
        ok := PutBytes(bytes);
        if ok {
          Advance(|bytes|);
          assert prevNames + map[] == prevNames;
        }
      case Target(name) =>
        ok := EncodeName(name, true);
      case Srv(priority, weight, port, target) =>
        ok := PutU16s(priority, weight, port);
        if ok {
          ghost var w := NameWire(target, prevNames);
          if w.Some? {
            ConcatAssoc(old(Written()), U16s(priority, weight, port), w.value);
          }
          ok := EncodeName(target, true);
        }
    }

    /** write_ints_into with three 16-bit integers. */
    method PutU16s(a: uint16, b: uint16, c: uint16) returns (ok: bool)
      requires Valid()
      modifies this`pos, this`bufOffset, tmp
      ensures InBounds() && old(Written()) <= Written()
      ensures ok <==> old(pos) + 6 <= tmp.Length
      ensures ok ==> Valid() && Written() == old(Written()) + U16s(a, b, c)
    {
      ok := PutBytes(U16(a));
      if ok {
        ok := PutBytes(U16(b));
      }
      if ok {
        ok := PutBytes(U16(c));
      }
      if ok {
        Advance(6);
      }
    }

    method PutFixedFields(r: Record) returns (ok: bool)
      requires Valid()
      modifies this`pos, this`bufOffset, tmp
      ensures InBounds() && old(Written()) <= Written()
      ensures ok <==> old(pos) + 8 <= tmp.Length
      ensures ok ==> Valid() && Written() == old(Written()) + FixedFields(r)
    {
      ok := PutBytes(U16(r.rtype));
      if ok {
        ok := PutBytes(U16(r.rclass));
      }
      if ok {
        ok := PutBytes(U32(r.ttl % 0x1_0000_0000));
      }
      if ok {
        Advance(8);
      }
    }

    /** ResourceRecord::encode: the name, then the rest. */
    method EncodeRecord(r: Record) returns (ok: bool)
      requires Valid()
      modifies this, tmp
      ensures Outcome(ok, PutRecord(old(Current()), r)) && old(Written()) <= Written()
    {
      hide NameWire, NameEntries, FixedFields, DataWire, DataEntries, U16;
      ok := EncodeName(r.name, true);
      if ok {
        ok := EncodeBody(r);
      }
    }

    /** The fixed fields and the data; the length is filled in once the data has been written. */
    method EncodeBody(r: Record) returns (ok: bool)
      requires Valid()
      modifies this, tmp
      ensures InBounds() && old(Written()) <= Written()
      ensures var w := DataWire(r.data, old(prevNames));
              if w.Some? && old(pos) + 10 + |w.value| <= tmp.Length then
                && ok && Valid()
                && Written() == old(Written()) + (FixedFields(r) + U16(|w.value| % 0x1_0000)) + w.value
                && prevNames == old(prevNames) + DataEntries(r.data, old(prevNames), old(pos) + 10)
              else !ok
    {
      hide FixedFields, DataWire, DataEntries, U16;
      ghost var before := Written();
      ok := PutFixedFields(r);
      if !ok {
        return;
      }
      if tmp.Length - pos < 2 {
        ok := false;
        return;
      }
      var sizeAt := pos;
      pos := pos + 2;
      Advance(2);
      ghost var header := Written();
      assert header[..sizeAt] == before + FixedFields(r);
      ok := EncodeData(r.data);
      if !ok {
        return;
      }
      ghost var w := DataWire(r.data, old(prevNames)).value;
      FillLength(sizeAt, |w|, header, w);
      ConcatAssoc(before, FixedFields(r), U16(|w| % 0x1_0000));
    }

    /** Writes the length of what follows the two bytes at `sizeAt` into them. */
    method FillLength(sizeAt: nat, ghost n: nat, ghost header: Bytes, ghost w: Bytes)
      requires Valid() && sizeAt + 2 + n == pos && |w| == n
      requires |header| == sizeAt + 2 && Written() == header + w
      modifies tmp
      ensures Written() == header[..sizeAt] + U16(n % 0x1_0000) + w
    {
      var size := (pos - sizeAt - 2) % 0x1_0000;
      tmp[sizeAt], tmp[sizeAt + 1] := U16(size)[0], U16(size)[1];
      assert Written() == header[..sizeAt] + U16(size) + w;
    }

    /** A section: stops at the first record that does not fit. */
    method EncodeRecords(rs: seq<Record>) returns (ok: bool)
      requires Valid()
      modifies this, tmp
      ensures Outcome(ok, PutRecords(old(Current()), rs)) && old(Written()) <= Written()
    {
      hide PutRecord;
      ok := true;
      ghost var d := Current();
      assert rs[0..] == rs;
      for i := 0 to |rs|
        invariant Valid() && ok && d.msg <= Written()
        invariant PutRecords(d, rs) == PutRecords(Current(), rs[i..])
      {
        ghost var c := Current();
        assert rs[i..][0] == rs[i] && rs[i..][1..] == rs[i + 1..];
        if PutRecords(c, rs[i..]).Some? {
          PutRecordsGrow(PutRecord(c, rs[i]).value, rs[i + 1..], PutRecords(c, rs[i..]).value);
        }
        ok := EncodeRecord(rs[i]);
        if !ok {
          return;
        }
      }
      assert rs[|rs|..] == [];
    }

    /** A write at a fixed place in the buffer, which does not move the span. */
    method Patch(at: nat, v: Bytes)
      modifies tmp
      ensures tmp[..] == Overwrite(old(tmp[..]), at, v)
    {
      forall i | 0 <= i < |v| && at + i < tmp.Length {
        tmp[at + i] := v[i];
      }
    }
  }

  lemma OverwriteTake(b: Bytes, n: nat, at: nat, v: Bytes)
    requires n <= |b|
    ensures Overwrite(b, at, v)[..n] == Overwrite(b[..n], at, v)
  {
  }

  /** The three runs of records as one, whichever of them fails. */
  lemma SectionsAsOne(m: Message, o: Draft)
    ensures PutRecords(o, AllRecords(m)) ==
            match PutRecords(o, m.answers) {
              case None => None
              case Some(a) =>
                match PutRecords(a, m.authorities) {
                  case None => None
                  case Some(b) => if m.edns.Some? then PutRecord(b, EdnsRecord(m.edns.value)) else Some(b)
                }
            }
  {
    hide PutRecord, EdnsRecord;
    var ar := if m.edns.Some? then [EdnsRecord(m.edns.value)] else [];
    PutRecordsSplit(o, m.answers + m.authorities, ar);
    PutRecordsSplit(o, m.answers, m.authorities);
    if m.edns.Some? {
      assert ar[1..] == [];
      forall b: Draft
        ensures PutRecords(b, ar) == PutRecord(b, EdnsRecord(m.edns.value))
      {
        if PutRecord(b, ar[0]).Some? {
          assert PutRecords(PutRecord(b, ar[0]).value, ar[1..]) == PutRecord(b, ar[0]);
        }
      }
    }
  }

  /** Writes the header and question, or fails for want of room. */
  method EncodeOpening(w: Writer, m: Message) returns (ok: bool)
    requires w.Valid() && w.pos == 0 && w.prevNames == map[]
    modifies w, w.tmp
    ensures w.Outcome(ok, PutOpening(m))
  {
    hide PutQuestion, ReplyFields;
    ok := w.PutU16s(m.id, ReplyFields(m), if m.question.Some? then 1 else 0);
    if ok {
      ok := w.PutU16s(|m.answers| % 0x1_0000, |m.authorities| % 0x1_0000, if m.edns.Some? then 1 else 0);
    }
    if !ok {
      OpeningAtLeastHeader(m);
      return;
    }
    assert w.Written() == MessageHeader(m);
    if m.question.Some? {
      ok := w.EncodeQuestion(m.question.value);
    }
  }

  lemma OpeningAtLeastHeader(m: Message)
    ensures PutOpening(m).Some? ==> |PutOpening(m).value.msg| >= 12
  {
  }

  /** The records of the three sections, in order, until one does not fit. */
  method EncodeSections(w: Writer, m: Message) returns (ok: bool)
    requires w.Valid()
    modifies w, w.tmp
    ensures w.Outcome(ok, PutRecords(old(w.Current()), AllRecords(m))) && old(w.Written()) <= w.Written()
  {
    hide PutRecord, PutRecords, EdnsRecord;
    ghost var o := w.Current();
    SectionsAsOne(m, o);
    GrowthOfSections(m, o);
    ok := w.EncodeRecords(m.answers);
    if ok {
      ok := w.EncodeRecords(m.authorities);
    }
    if ok && m.edns.Some? {
      ok := w.EncodeRecord(EdnsRecord(m.edns.value));
    }
  }

  /** If an earlier section is already too long, so is the whole. */
  lemma GrowthOfSections(m: Message, o: Draft)
    ensures PutRecords(o, AllRecords(m)).Some? ==>
              && PutRecords(o, m.answers).Some?
              && PutRecords(PutRecords(o, m.answers).value, m.authorities).Some?
              && |PutRecords(o, m.answers).value.msg|
                 <= |PutRecords(PutRecords(o, m.answers).value, m.authorities).value.msg|
                 <= |PutRecords(o, AllRecords(m)).value.msg|
  {
    hide PutRecord, PutRecords, EdnsRecord;
    SectionsAsOne(m, o);
    if PutRecords(o, AllRecords(m)).Some? {
      var a := PutRecords(o, m.answers).value;
      var b := PutRecords(a, m.authorities).value;
      PutRecordsGrow(a, m.authorities, b);
      if m.edns.Some? {
        EdnsWireIsRecord(b, m.edns.value);
      }
    }
  }

  /** The catch block: patch the header, back up to after the question, and retry EDNS alone. */
  method TruncateReply(w: Writer, m: Message, initialLen: uint16, width: nat)
    requires width == 2 || width == 4
    requires w.InBounds() && 12 <= initialLen <= w.pos
    modifies w, w.tmp
    ensures w.InBounds() && w.Written() == Truncated(m, old(w.tmp[..initialLen]), w.tmp.Length, width)
  {
    hide Overwrite, Wide, SetBit, ReplyFields, EdnsWire, EdnsRecord, PutRecord;
    ghost var t0 := w.tmp[..];
    var fields := Wide(SetBit(ReplyFields(m), TC), width);
    w.Patch(2, fields);
    w.pos := initialLen;
    w.Patch(6, Wide(0, width));
    w.bufOffset := initialLen;
    OverwriteTake(t0, initialLen, 2, fields);
    OverwriteTake(Overwrite(t0, 2, fields), initialLen, 6, Wide(0, width));
    ghost var h := Overwrite(Overwrite(t0[..initialLen], 2, fields), 6, Wide(0, width));
    assert t0[..initialLen] == old(w.tmp[..initialLen]);
    assert w.tmp[..][..initialLen] == w.tmp[..initialLen];
    assert w.Written() == h;
    if m.edns.Some? {
      EdnsWireIsRecord(w.Current(), m.edns.value);
      var ok := w.EncodeRecord(EdnsRecord(m.edns.value));
      if !ok {
        assert w.tmp[..][..initialLen] == h;
        w.pos := initialLen;
        w.bufOffset := initialLen;
        OverwriteTake(w.tmp[..], initialLen, 10, Wide(0, width));
        w.Patch(10, Wide(0, width));
        assert w.tmp[..][..initialLen] == w.tmp[..initialLen];
      }
    }
  }

  /** Message::encode. */
  method EncodeReply(m: Message, maxSize: bool, width: nat) returns (r: Option<Bytes>)
    requires width == 2 || width == 4
    ensures r == Encode(m, if maxSize then 0xFFFF else if m.edns.Some? then m.edns.value.maxPayload else 512, width)
  {
    hide PutOpening, PutRecords, AllRecords, Truncated;
    var limit: uint16 := if maxSize then 0xFFFF else if m.edns.Some? then m.edns.value.maxPayload else 512;
    var w := new Writer(limit);
    var ok := EncodeOpening(w, m);
    if !ok {
      return None;
    }
    var initialLen := w.bufOffset;
    ghost var o := w.Current();
    OpeningAtLeastHeader(m);
    ok := EncodeSections(w, m);
    if !ok {
      assert w.tmp[..initialLen] == o.msg;
      TruncateReply(w, m, initialLen, width);
    }
    return Some(w.tmp[..w.pos]);
  }
}
