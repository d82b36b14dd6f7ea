/**
 Domain names: the compressing writer of src/dns/encode.cpp as a function from a name and a
 table of earlier suffixes to bytes, an independent reader of compressed names following
 section 4.1.4 of RFC 1035, and the proof that the reader undoes the writer.

 Names are dotted text, as the writer receives them; `46` is the dot.
 */
module DnsNames {
  import opened WireBytes

  const DOT: byte := 46

  /** Suffix text to the offset in the message at which it was first written. */
  type NameTable = map<Bytes, nat>

  // ----- text -----

  /** The first dot at or after `from`, or |s| when there is none. */
  function FindDot(s: Bytes, from: nat): (r: nat)
    ensures r <= |s|
    ensures r < |s| ==> from <= r && s[r] == DOT
    ensures forall i :: from <= i < r ==> s[i] != DOT
    decreases |s| - from
  {
    if from >= |s| then |s|
    else if s[from] == DOT then from
    else FindDot(s, from + 1)
  }

  /** A name without its optional final dot. */
  function Strip(name: Bytes): Bytes {
    if name != [] && name[|name| - 1] == DOT then name[..|name| - 1] else name
  }

  /** Text cut at every dot; always at least one piece. */
  function Split(s: Bytes): (ls: seq<Bytes>)
    ensures ls != []
    decreases |s|
  {
    var i := FindDot(s, 0);
    if i < |s| then [s[..i]] + Split(s[i + 1..]) else [s]
  }

  function Dotted(ls: seq<Bytes>): Bytes
    requires ls != []
  {
    if |ls| == 1 then ls[0] else ls[0] + [DOT] + Dotted(ls[1..])
  }

  /** The labels a name stands for; the empty name is the root, with none. */
  function Labels(name: Bytes): seq<Bytes> {
    var s := Strip(name);
    if s == [] then [] else Split(s)
  }

  predicate GoodLabels(ls: seq<Bytes>) {
    ls == [] || (1 <= |ls[0]| <= 63 && GoodLabels(ls[1..]))
  }

  predicate GoodText(s: Bytes) {
    GoodLabels(Split(s))
  }

  /** The root, or dot-separated labels of 1 to 63 bytes. */
  predicate WellFormed(name: Bytes) {
    Strip(name) == [] || GoodText(Strip(name))
  }

  lemma DottedCons(l: Bytes, ls: seq<Bytes>)
    requires ls != []
    ensures Dotted([l] + ls) == l + [DOT] + Dotted(ls)
  {
  }

  /** Cutting into labels loses nothing: joining them with dots gives the text back. */
  lemma {:induction false} SplitJoins(s: Bytes)
    ensures Dotted(Split(s)) == s
    decreases |s|
  {
    hide FindDot;
    var i := FindDot(s, 0);
    if i < |s| {
      hide Dotted;
      SplitJoins(s[i + 1..]);
      DottedCons(s[..i], Split(s[i + 1..]));
    }
  }

  // ----- the writer -----

  /** The piece the writer emits first: it looks for a dot after the first byte. */
  function Head(s: Bytes): Bytes {
    s[..FindDot(s, 1)]
  }

  predicate HasMore(s: Bytes) {
    FindDot(s, 1) < |s|
  }

  function Tail(s: Bytes): (t: Bytes)
    requires HasMore(s)
    ensures |t| < |s|
  {
    s[FindDot(s, 1) + 1..]
  }

  /** A compression pointer: the two top bits set over the low 14 bits of the offset. */
  function Pointer(offset: nat): Bytes {
    U16(0xC000 + offset % 0x4000)
  }

  /** What is written for the suffix `s`; None when a label is too long and the writer throws. */
  function SuffixWire(s: Bytes, names: NameTable): Option<Bytes>
    decreases |s|
  {
    if s in names then Some(Pointer(names[s]))
    else if |Head(s)| > 63 then None
    else if !HasMore(s) then Some([|Head(s)|] + Head(s) + [0])
    else match SuffixWire(Tail(s), names)
      case None => None
      case Some(rest) => Some([|Head(s)|] + Head(s) + rest)
  }

  /** The suffixes that become pointable when `s` is written at `at`. */
  function SuffixEntries(s: Bytes, names: NameTable, at: nat): NameTable
    decreases |s|
  {
    if s in names then map[]
    else if !HasMore(s) then map[s := at]
    else SuffixEntries(Tail(s), names, at + 1 + |Head(s)|)[s := at]
  }

  function NameWire(name: Bytes, names: NameTable): Option<Bytes> {
    if Strip(name) == [] then Some([0]) else SuffixWire(Strip(name), names)
  }

  function NameEntries(name: Bytes, names: NameTable, at: nat): NameTable {
    if Strip(name) == [] then map[] else SuffixEntries(Strip(name), names, at)
  }

  // ----- the reader (RFC 1035, section 4.1.4) -----

  datatype NameRead = NoName | NameRead(labels: seq<Bytes>, next: nat)

  /**
   Reads the name at `at`, part of an occurrence that began at `start`. A pointer must lead to
   before that occurrence ("a prior occurrence of the same name"), which is what makes the
   reader total. `next` is the offset just past the name as it stands here.
   */
  function ReadName(msg: Bytes, start: nat, at: nat): NameRead
    decreases start, |msg| - at
  {
    if at >= |msg| then NoName
    else if msg[at] == 0 then NameRead([], at + 1)
    else if msg[at] < 64 then
      var after := at + 1 + msg[at];
      if after > |msg| then NoName
      else match ReadName(msg, start, after)
        case NoName => NoName
        case NameRead(ls, next) => NameRead([msg[at + 1..after]] + ls, next)
    else if msg[at] >= 192 && at + 1 < |msg| then
      var target := (msg[at] - 192) as int * 0x100 + msg[at + 1];
      if target >= start then NoName
      else match ReadName(msg, target, target)
        case NoName => NoName
        case NameRead(ls, _) => NameRead(ls, at + 2)
    else NoName
  }

  // ----- the reader undoes the writer -----

  /** Appending to a message does not change the names already in it. */
  lemma {:induction false} ReadNameExtend(msg: Bytes, ext: Bytes, start: nat, at: nat)
    requires ReadName(msg, start, at).NameRead?
    ensures ReadName(msg + ext, start, at) == ReadName(msg, start, at)
    decreases start, |msg| - at
  {
    var all := msg + ext;
    assert all[at] == msg[at];
    if 0 < msg[at] < 64 {
      var after := at + 1 + msg[at];
      assert all[at + 1..after] == msg[at + 1..after];
      ReadNameExtend(msg, ext, start, after);
    } else if msg[at] >= 192 {
      assert all[at + 1] == msg[at + 1];
      var target := (msg[at] - 192) as int * 0x100 + msg[at + 1];
      ReadNameExtend(msg, ext, target, target);
    }
  }

  /** A table entry holds: its suffix is what a reader finds at its offset. */
  predicate EntryHolds(msg: Bytes, s: Bytes, at: nat) {
    && GoodText(s)
    && at < |msg|
    && at < 0x4000
    && ReadName(msg, at, at).NameRead?
    && ReadName(msg, at, at).labels == Split(s)
  }

  /** Every entry of the table holds in the message written so far. */
  ghost predicate TableHolds(msg: Bytes, names: NameTable) {
    forall s :: s in names ==> EntryHolds(msg, s, names[s])
  }

  lemma TableHoldsExtend(msg: Bytes, ext: Bytes, names: NameTable)
    requires TableHolds(msg, names)
    ensures TableHolds(msg + ext, names)
  {
    forall s | s in names
      ensures EntryHolds(msg + ext, s, names[s])
    {
      ReadNameExtend(msg, ext, names[s], names[s]);
    }
  }

  /** On well-formed text the writer's pieces are the labels. */
  lemma GoodTextHead(s: Bytes)
    requires GoodText(s)
    ensures s != [] && Head(s) == Split(s)[0] && 1 <= |Head(s)| <= 63
    ensures HasMore(s) ==> GoodText(Tail(s)) && Split(s) == [Head(s)] + Split(Tail(s))
    ensures !HasMore(s) ==> Split(s) == [Head(s)] && Head(s) == s
  {
  }

  /** The 14-bit field carries an offset exactly when the offset fits in 14 bits. */
  lemma PointerCarriesOffset(offset: nat)
    ensures var p := Pointer(offset);
            p[0] >= 192 && ((p[0] - 192) as int * 0x100 + p[1] == offset <==> offset < 0x4000)
  {
  }

  lemma ReadLabelStep(msg: Bytes, start: nat, at: nat, text: Bytes, rest: NameRead)
    requires 1 <= |text| <= 63 && at + 1 + |text| <= |msg|
    requires msg[at] == |text| && msg[at + 1..at + 1 + |text|] == text
    requires ReadName(msg, start, at + 1 + |text|) == rest && rest.NameRead?
    ensures ReadName(msg, start, at) == NameRead([text] + rest.labels, rest.next)
  {
  }

  lemma ReadPointerStep(msg: Bytes, start: nat, at: nat, offset: nat)
    requires at + 2 <= |msg| && msg[at..at + 2] == Pointer(offset)
    requires offset < start && offset < 0x4000 && ReadName(msg, offset, offset).NameRead?
    ensures ReadName(msg, start, at) == NameRead(ReadName(msg, offset, offset).labels, at + 2)
  {
    PointerCarriesOffset(offset);
    assert msg[at] == Pointer(offset)[0] && msg[at + 1] == Pointer(offset)[1];
  }

  /**
   A suffix written after `msg` reads back as its labels, whichever earlier suffix it points
   to, and the reader ends where the writer did.
   */
  lemma {:induction false} SuffixReads(msg: Bytes, names: NameTable, s: Bytes, start: nat, w: Bytes)
    requires GoodText(s) && SuffixWire(s, names) == Some(w)
    requires TableHolds(msg, names) && start <= |msg|
    requires forall k :: k in names ==> names[k] < start
    ensures ReadName(msg + w, start, |msg|) == NameRead(Split(s), |msg| + |w|)
    decreases |s|
  {
    hide ReadName, GoodText, FindDot, Split;
    if s in names {
      KnownSuffixReads(msg, s, names[s], start);
    } else {
      GoodTextHead(s);
      if HasMore(s) {
        var piece: Bytes := [|Head(s)|] + Head(s);
        var rest := SuffixWire(Tail(s), names).value;
        TableHoldsExtend(msg, piece, names);
        SuffixReads(msg + piece, names, Tail(s), start, rest);
        LabelThenReads(msg, Head(s), rest, start, Split(Tail(s)));
      } else {
        LastLabelReads(msg, s, start);
      }
    }
  }

  lemma KnownSuffixReads(msg: Bytes, s: Bytes, offset: nat, start: nat)
    requires EntryHolds(msg, s, offset) && offset < start
    ensures ReadName(msg + Pointer(offset), start, |msg|) == NameRead(Split(s), |msg| + 2)
  {
    var w := Pointer(offset);
    ReadNameExtend(msg, w, offset, offset);
    assert (msg + w)[|msg|..|msg| + 2] == w;
    ReadPointerStep(msg + w, start, |msg|, offset);
  }

  lemma LastLabelReads(msg: Bytes, text: Bytes, start: nat)
    requires 1 <= |text| <= 63
    ensures ReadName(msg + ([|text|] + text + [0]), start, |msg|) == NameRead([text], |msg| + |text| + 2)
  {
    var all := msg + ([|text|] + text + [0]);
    var after := |msg| + 1 + |text|;
    assert all[|msg|] == |text| && all[after] == 0;
    assert all[|msg| + 1..after] == text;
    assert ReadName(all, start, after) == NameRead([], after + 1);
    ReadLabelStep(all, start, |msg|, text, NameRead([], after + 1));
  }

  lemma LabelThenReads(msg: Bytes, text: Bytes, rest: Bytes, start: nat, ls: seq<Bytes>)
    requires 1 <= |text| <= 63
    requires var piece: Bytes := [|text|] + text;
             ReadName(msg + piece + rest, start, |msg + piece|) == NameRead(ls, |msg + piece| + |rest|)
    ensures ReadName(msg + ([|text|] + text + rest), start, |msg|)
            == NameRead([text] + ls, |msg| + 1 + |text| + |rest|)
  {
    hide ReadName;
    var piece: Bytes := [|text|] + text;
    var all := msg + piece + rest;
    ConcatAssoc(msg, piece, rest);
    assert all[|msg|] == piece[0];
    assert all[|msg| + 1..|msg| + 1 + |text|] == text;
    ReadLabelStep(all, start, |msg|, text, NameRead(ls, |msg + piece| + |rest|));
  }

  lemma NewEntryHolds(msg: Bytes, names: NameTable, s: Bytes, w: Bytes)
    requires GoodText(s) && SuffixWire(s, names) == Some(w)
    requires TableHolds(msg, names) && |msg| + |w| <= 0x4000
    ensures EntryHolds(msg + w, s, |msg|)
  {
    SuffixReads(msg, names, s, |msg|, w);
  }

  /** The entries added for a suffix hold once it has been written. */
  lemma {:induction false} SuffixEntriesHold(msg: Bytes, names: NameTable, s: Bytes, w: Bytes)
    requires GoodText(s) && SuffixWire(s, names) == Some(w)
    requires TableHolds(msg, names) && |msg| + |w| <= 0x4000
    ensures TableHolds(msg + w, SuffixEntries(s, names, |msg|))
    decreases |s|
  {
    hide ReadName, GoodText, FindDot, Split, EntryHolds, TableHolds;
    if s in names {
      TableHoldsEmpty(msg + w);
    } else {
      GoodTextHead(s);
      var more: NameTable := map[];
      if HasMore(s) {
        var piece: Bytes := [|Head(s)|] + Head(s);
        var rest := SuffixWire(Tail(s), names).value;
        TableHoldsExtend(msg, piece, names);
        ConcatAssoc(msg, piece, rest);
        SuffixEntriesHold(msg + piece, names, Tail(s), rest);
        more := SuffixEntries(Tail(s), names, |msg + piece|);
      } else {
        TableHoldsEmpty(msg + w);
      }
      NewEntryHolds(msg, names, s, w);
      TableHoldsAdd(msg + w, more, s, |msg|);
    }
  }

  lemma TableHoldsEmpty(msg: Bytes)
    ensures TableHolds(msg, map[])
  {
  }

  lemma TableHoldsAdd(msg: Bytes, names: NameTable, s: Bytes, at: nat)
    requires TableHolds(msg, names) && EntryHolds(msg, s, at)
    ensures TableHolds(msg, names[s := at])
  {
  }

  lemma TableHoldsMerge(msg: Bytes, names: NameTable, more: NameTable)
    requires TableHolds(msg, names) && TableHolds(msg, more)
    ensures TableHolds(msg, names + more)
  {
  }

  /**
   Writing a well-formed name keeps the table true and the name reads back as its labels.
   Any pointer in it leads to before the name.
   */
  lemma NameReads(msg: Bytes, names: NameTable, name: Bytes, w: Bytes)
    requires WellFormed(name) && TableHolds(msg, names) && NameWire(name, names) == Some(w)
    ensures ReadName(msg + w, |msg|, |msg|) == NameRead(Labels(name), |msg| + |w|)
  {
    if Strip(name) == [] {
      assert (msg + w)[|msg|] == 0;
    } else {
      SuffixReads(msg, names, Strip(name), |msg|, w);
    }
  }

  lemma NameKeepsTable(msg: Bytes, names: NameTable, name: Bytes, w: Bytes)
    requires WellFormed(name) && TableHolds(msg, names) && NameWire(name, names) == Some(w)
    requires |msg| + |w| <= 0x4000
    ensures TableHolds(msg + w, names + NameEntries(name, names, |msg|))
  {
    var entries := NameEntries(name, names, |msg|);
    TableHoldsExtend(msg, w, names);
    if Strip(name) != [] {
      SuffixEntriesHold(msg, names, Strip(name), w);
    } else {
      assert entries == map[];
    }
    TableHoldsMerge(msg + w, names, entries);
  }

  /** A well-formed name is always written; the writer throws only for want of room. */
  lemma {:induction false} GoodTextWritten(s: Bytes, names: NameTable)
    requires GoodText(s)
    ensures SuffixWire(s, names).Some?
    decreases |s|
  {
    GoodTextHead(s);
    if s !in names && HasMore(s) {
      GoodTextWritten(Tail(s), names);
    }
  }

  lemma WellFormedWritten(name: Bytes, names: NameTable)
    requires WellFormed(name)
    ensures NameWire(name, names).Some?
  {
    if Strip(name) != [] {
      GoodTextWritten(Strip(name), names);
    }
  }
}
