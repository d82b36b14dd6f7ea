/**
 The 0-RTT session tickets of src/nodedb.cpp: a few per relay in memory, written back to one file
 per relay by saves that snapshot under the lock and write after releasing it.
 */
module ZeroRtt {
  import opened WireBytes
  import opened RouterIds

  datatype Ticket = Ticket(data: Bytes, expiry: int)

  type Tickets = seq<Ticket>
  type Book = map<RouterId, Tickets>

  const MAX_0RTT_TICKETS := 2

  function Of(b: Book, rid: RouterId): Tickets {
    if rid in b then b[rid] else []
  }

  /** Drops expired tickets from the front. */
  function Prune(s: Tickets, now: int): Tickets {
    if s != [] && s[0].expiry < now then Prune(s[1..], now) else s
  }

  /** The tickets a later load would keep. */
  function Live(s: Tickets, now: int): Tickets {
    if s == [] then []
    else if s[0].expiry > now then [s[0]] + Live(s[1..], now)
    else Live(s[1..], now)
  }

  /** Room for one more ticket. */
  function Trim(s: Tickets): Tickets {
    if |s| >= MAX_0RTT_TICKETS then Trim(s[1..]) else s
  }

  /**
   Memory, relays changed since the last snapshot, files, and the writes still to be made by
   each save, oldest save first; an empty list of tickets means that the file is to be erased.
   */
  datatype State = State(mem: Book, dirty: set<RouterId>, disk: Book, saves: seq<Book>, clock: int)

  datatype Event =
    | Store(rid: RouterId, ticket: Ticket)
    | Extract(rid: RouterId, now: int)
    | Snapshot(now: int)
    | Write(save: nat, rid: RouterId)
    | Restart(now: int)

  function Given(s: State, e: Event): Option<Ticket> {
    match e
    case Extract(rid, now) =>
      var left := Prune(Of(s.mem, rid), now);
      if left == [] then None else Some(left[0])
    case _ => None
  }

  function Extracted(b: Book, rid: RouterId, now: int): Book {
    if rid !in b then b
    else
      var left := Prune(b[rid], now);
      b[rid := if left == [] then [] else left[1..]]
  }

  /** What a snapshot sets down to be written. */
  function Pending(b: Book, dirty: set<RouterId>, now: int): Book {
    map rid | rid in dirty :: Prune(Of(b, rid), now)
  }

  /** Memory after a snapshot: the changed relays pruned, those left with nothing removed. */
  function Pruned(b: Book, dirty: set<RouterId>, now: int): Book {
    map rid | rid in b && (rid in dirty ==> Prune(b[rid], now) != []) ::
      if rid in dirty then Prune(b[rid], now) else b[rid]
  }

  function Written(disk: Book, rid: RouterId, s: Tickets): Book {
    if s == [] then disk - {rid} else disk[rid := s]
  }

  function Loaded(disk: Book, now: int): Book {
    map rid | rid in disk && Live(disk[rid], now) != [] :: Live(disk[rid], now)
  }

  /** The files that a load leaves: those with a live ticket. */
  function Unpurged(disk: Book, now: int): Book {
    map rid | rid in disk && Live(disk[rid], now) != [] :: disk[rid]
  }

  ghost predicate Possible(s: State, e: Event) {
    match e
    case Store(_, _) => true
    case Extract(_, now) => s.clock <= now
    case Snapshot(now) => s.clock <= now
    case Write(i, rid) => i < |s.saves| && rid in s.saves[i]
    case Restart(now) => s.clock <= now
  }

  function Step(s: State, e: Event): State
    requires Possible(s, e)
  {
    match e
    case Store(rid, ticket) =>
      s.(mem := s.mem[rid := Trim(Of(s.mem, rid)) + [ticket]], dirty := s.dirty + {rid})
    case Extract(rid, now) =>
      s.(mem := Extracted(s.mem, rid, now), dirty := if rid in s.mem then s.dirty + {rid} else s.dirty, clock := now)
    case Snapshot(now) =>
      s.(mem := Pruned(s.mem, s.dirty, now), dirty := {}, saves := s.saves + [Pending(s.mem, s.dirty, now)],
         clock := now)
    case Write(i, rid) =>
      s.(disk := Written(s.disk, rid, s.saves[i][rid]), saves := s.saves[i := s.saves[i] - {rid}])
    case Restart(now) =>
      State(Loaded(s.disk, now), {}, Unpurged(s.disk, now), [], now)
  }

  // ----- memory and files -----

  /** What the file of a relay holds once every write set down so far has been made. */
  function Settled(disk: Book, saves: seq<Book>, rid: RouterId): Tickets
    decreases |saves|
  {
    if saves == [] then Of(disk, rid)
    else
      var last := saves[|saves| - 1];
      if rid in last then last[rid] else Settled(disk, saves[..|saves| - 1], rid)
  }

  /** For relays without unsaved changes, memory and the settled file hold the same live tickets. */
  ghost predicate Agree(s: State) {
    forall rid: RouterId, t: int :: rid !in s.dirty && t >= s.clock ==>
                                      Live(Of(s.mem, rid), t) == Live(Settled(s.disk, s.saves, rid), t)
  }

  /** The same live tickets from a time on. */
  ghost predicate SameLive(a: Tickets, b: Tickets, from: int) {
    forall t: int :: t >= from ==> Live(a, t) == Live(b, t)
  }

  /**
   When a write leaves the settled file alone: the relay has changed again and will be saved
   again, or a newer save will write it again, or no older write of it is left, or the older
   write that is left would bring back the same live tickets.
   */
  ghost predicate Orderly(s: State, e: Event) {
    && Possible(s, e)
    && (e.Write? ==>
          || e.rid in s.dirty
          || (exists k :: e.save < k < |s.saves| && e.rid in s.saves[k])
          || (forall j :: 0 <= j < e.save ==> e.rid !in s.saves[j])
          || SameLive(Settled(s.disk, s.saves[..e.save], e.rid), s.saves[e.save][e.rid], s.clock))
  }

  lemma {:induction false} LiveLive(s: Tickets, now: int, t: int)
    requires now <= t
    ensures Live(Live(s, now), t) == Live(s, t)
  {
    if s != [] {
      LiveLive(s[1..], now, t);
      var rest := Live(s[1..], now);
      if s[0].expiry > now {
        assert ([s[0]] + rest)[1..] == rest;
      }
    }
  }

  lemma {:induction false} UnsavedFile(disk: Book, saves: seq<Book>, rid: RouterId)
    requires forall j :: 0 <= j < |saves| ==> rid !in saves[j]
    ensures Settled(disk, saves, rid) == Of(disk, rid)
    decreases |saves|
  {
    if saves != [] {
      UnsavedFile(disk, saves[..|saves| - 1], rid);
    }
  }

  lemma {:induction false} OtherFile(disk: Book, saves: seq<Book>, rid: RouterId, s: Tickets, r: RouterId)
    ensures r != rid ==> Settled(Written(disk, rid, s), saves, r) == Settled(disk, saves, r)
    decreases |saves|
  {
    if saves != [] {
      OtherFile(disk, saves[..|saves| - 1], rid, s, r);
    }
  }

  /** A write, in any order, settles nothing for other relays. */
  lemma {:induction false} WriteElsewhere(disk: Book, saves: seq<Book>, i: nat, rid: RouterId, s: Tickets, r: RouterId)
    requires i < |saves| && r != rid
    ensures Settled(Written(disk, rid, s), saves[i := saves[i] - {rid}], r) == Settled(disk, saves, r)
    decreases |saves|
  {
    var after := saves[i := saves[i] - {rid}];
    var front, last := saves[..|saves| - 1], |saves| - 1;
    if i == last {
      assert after[..last] == front;
      OtherFile(disk, front, rid, s, r);
    } else {
      assert after[..last] == front[i := front[i] - {rid}];
      WriteElsewhere(disk, front, i, rid, s, r);
    }
  }

  /** With a newer save of the relay to come, a write settles nothing. */
  lemma {:induction false} EarlierWrite(disk: Book, saves: seq<Book>, i: nat, k: nat, rid: RouterId, s: Tickets)
    requires i < k < |saves| && rid in saves[k]
    ensures Settled(Written(disk, rid, s), saves[i := saves[i] - {rid}], rid) == Settled(disk, saves, rid)
    decreases |saves|
  {
    var front, last := saves[..|saves| - 1], |saves| - 1;
    if rid !in saves[last] {
      assert saves[i := saves[i] - {rid}][..last] == front[i := front[i] - {rid}];
      EarlierWrite(disk, front, i, k, rid, s);
    }
  }

  /** Saves without the relay settle nothing for it. */
  lemma {:induction false} SettledFront(disk: Book, saves: seq<Book>, n: nat, rid: RouterId)
    requires n <= |saves| && forall k :: n <= k < |saves| ==> rid !in saves[k]
    ensures Settled(disk, saves, rid) == Settled(disk, saves[..n], rid)
    decreases |saves|
  {
    if n == |saves| {
      assert saves[..n] == saves;
    } else {
      var front := saves[..|saves| - 1];
      assert front[..n] == saves[..n];
      SettledFront(disk, front, n, rid);
    }
  }

  /** Where a relay's file settles after one of its writes is made, in any order. */
  lemma WriteSettles(disk: Book, saves: seq<Book>, i: nat, rid: RouterId)
    requires i < |saves| && rid in saves[i]
    ensures
      var after := Settled(Written(disk, rid, saves[i][rid]), saves[i := saves[i] - {rid}], rid);
      if exists k :: i < k < |saves| && rid in saves[k] then after == Settled(disk, saves, rid)
      else
        && Settled(disk, saves, rid) == saves[i][rid]
        && after == if forall j :: 0 <= j < i ==> rid !in saves[j] then saves[i][rid]
                    else Settled(disk, saves[..i], rid)
  {
    var x := saves[i][rid];
    if k :| i < k < |saves| && rid in saves[k] {
      EarlierWrite(disk, saves, i, k, rid, x);
    } else {
      var after := saves[i := saves[i] - {rid}];
      SettledFront(disk, saves, i + 1, rid);
      SettledFront(Written(disk, rid, x), after, i, rid);
      assert saves[..i + 1][..i] == saves[..i] == after[..i];
      if forall j :: 0 <= j < i ==> rid !in saves[j] {
        UnsavedFile(Written(disk, rid, x), saves[..i], rid);
      } else {
        SavedFile(disk, Written(disk, rid, x), saves[..i], rid);
      }
    }
  }

  /** A write that is left decides, whatever the file holds now. */
  lemma {:induction false} SavedFile(disk: Book, other: Book, saves: seq<Book>, rid: RouterId)
    requires exists j :: 0 <= j < |saves| && rid in saves[j]
    ensures Settled(disk, saves, rid) == Settled(other, saves, rid)
    decreases |saves|
  {
    var front, last := saves[..|saves| - 1], |saves| - 1;
    if rid !in saves[last] {
      var j :| 0 <= j < |saves| && rid in saves[j];
      assert rid in front[j];
      SavedFile(disk, other, front, rid);
    }
  }

  lemma SnapshotAgrees(s: State, now: int)
    requires Agree(s) && s.clock <= now
    ensures Agree(Step(s, Snapshot(now)))
  {
  }

  lemma EmptyPrune(now: int)
    ensures Prune([], now) == []
  {
  }

  lemma RestartAgrees(s: State, now: int)
    requires s.clock <= now
    ensures Agree(Step(s, Restart(now)))
    ensures forall rid :: Of(Loaded(s.disk, now), rid) == Live(Of(s.disk, rid), now)
  {
    hide Live;
    var after := Step(s, Restart(now));
    forall rid: RouterId
      ensures Of(after.mem, rid) == Live(Of(s.disk, rid), now)
    {
      EmptyLive(now);
    }
    forall rid: RouterId, t: int | t >= now
      ensures Live(Of(after.mem, rid), t) == Live(Of(after.disk, rid), t)
    {
      LiveLive(Of(s.disk, rid), now, t);
      EmptyLive(t);
    }
  }

  lemma {:induction false} LiveMeans(s: Tickets, now: int)
    ensures forall x :: x in Live(s, now) <==> x in s && x.expiry > now
  {
    if s != [] {
      LiveMeans(s[1..], now);
    }
  }

  /** A load brings back the tickets of each file that have not expired, and keeps only files that have some. */
  lemma LoadedMeans(disk: Book, now: int)
    ensures Loaded(disk, now).Keys == Unpurged(disk, now).Keys
    ensures forall rid :: rid in Unpurged(disk, now) ==> rid in disk && Unpurged(disk, now)[rid] == disk[rid]
    ensures forall rid :: rid in Loaded(disk, now) <==> rid in disk && exists x :: x in disk[rid] && x.expiry > now
    ensures forall rid, x ::
              rid in Loaded(disk, now) ==> (x in Loaded(disk, now)[rid] <==> x in disk[rid] && x.expiry > now)
  {
    hide Live;
    forall rid | rid in disk
      ensures Live(disk[rid], now) != [] <==> exists x :: x in disk[rid] && x.expiry > now
      ensures forall x :: x in Live(disk[rid], now) <==> x in disk[rid] && x.expiry > now
    {
      LiveMeans(disk[rid], now);
      if Live(disk[rid], now) != [] {
        assert Live(disk[rid], now)[0] in Live(disk[rid], now);
      }
    }
  }

  lemma EmptyLive(now: int)
    ensures Live([], now) == []
  {
  }

  /** An event keeps memory and files in agreement if and only if it is orderly. */
  lemma StepAgrees(s: State, e: Event)
    requires Agree(s) && Possible(s, e)
    ensures Agree(Step(s, e)) <==> Orderly(s, e)
  {
    match e {
      case Store(_, _) =>
      case Extract(rid, now) => ExtractAgrees(s, rid, now);
      case Snapshot(now) => SnapshotAgrees(s, now);
      case Write(i, rid) => WriteAgrees(s, i, rid);
      case Restart(now) => RestartAgrees(s, now);
    }
  }

  lemma ExtractAgrees(s: State, rid: RouterId, now: int)
    requires Agree(s) && s.clock <= now
    ensures Agree(Step(s, Extract(rid, now)))
  {
  }

  lemma WriteAgrees(s: State, i: nat, rid: RouterId)
    requires Agree(s) && Possible(s, Write(i, rid))
    ensures Agree(Step(s, Write(i, rid))) <==> Orderly(s, Write(i, rid))
  {
    hide Live, Settled, Written;
    var after := Step(s, Write(i, rid));
    forall r: RouterId | r != rid
      ensures Settled(after.disk, after.saves, r) == Settled(s.disk, s.saves, r)
    {
      WriteElsewhere(s.disk, s.saves, i, rid, s.saves[i][rid], r);
    }
    WriteSettles(s.disk, s.saves, i, rid);
    assert Agree(after) <==>
        rid in s.dirty || SameLive(Settled(after.disk, after.saves, rid), Settled(s.disk, s.saves, rid), s.clock);
  }

  // ----- runs -----

  ghost predicate PossibleRun(s: State, es: seq<Event>)
    decreases |es|
  {
    es == [] || (Possible(s, es[0]) && PossibleRun(Step(s, es[0]), es[1..]))
  }

  ghost predicate OrderlyRun(s: State, es: seq<Event>)
    ensures OrderlyRun(s, es) ==> PossibleRun(s, es)
    decreases |es|
  {
    es == [] || (Orderly(s, es[0]) && OrderlyRun(Step(s, es[0]), es[1..]))
  }

  ghost function Run(s: State, es: seq<Event>): State
    requires PossibleRun(s, es)
    decreases |es|
  {
    if es == [] then s else Run(Step(s, es[0]), es[1..])
  }

  /** Memory and files agree at the start and after every event. */
  ghost predicate AlwaysAgrees(s: State, es: seq<Event>)
    requires PossibleRun(s, es)
    decreases |es|
  {
    Agree(s) && (es == [] || AlwaysAgrees(Step(s, es[0]), es[1..]))
  }

  /** They do so throughout a run if and only if every event of it is orderly. */
  lemma {:induction false} RunAgrees(s: State, es: seq<Event>)
    requires Agree(s) && PossibleRun(s, es)
    ensures AlwaysAgrees(s, es) <==> OrderlyRun(s, es)
    ensures OrderlyRun(s, es) ==> Agree(Run(s, es))
    decreases |es|
  {
    hide Agree, Step, Orderly;
    if es != [] {
      StepAgrees(s, es[0]);
      if Orderly(s, es[0]) {
        RunAgrees(Step(s, es[0]), es[1..]);
      }
    }
  }

  /** After any orderly run, a relay neither changed nor awaiting a write has its live tickets on disk. */
  lemma FilesMatchMemory(s: State, es: seq<Event>, rid: RouterId, t: int)
    requires Agree(s) && OrderlyRun(s, es)
    requires var f := Run(s, es);
             rid !in f.dirty && t >= f.clock && forall j :: 0 <= j < |f.saves| ==> rid !in f.saves[j]
    ensures var f := Run(s, es); Live(Of(f.mem, rid), t) == Live(Of(f.disk, rid), t)
  {
    hide Live, Run, OrderlyRun;
    RunAgrees(s, es);
    var f := Run(s, es);
    UnsavedFile(f.disk, f.saves, rid);
  }

  /** The settled file is the one reached by making the writes that are left, oldest first. */
  lemma {:induction false} FileSettles(s: State, rid: RouterId, from: nat) returns (es: seq<Event>)
    requires from <= |s.saves| && forall j :: 0 <= j < from ==> rid !in s.saves[j]
    ensures PossibleRun(s, es) && forall i :: 0 <= i < |es| ==> es[i].Write? && es[i].rid == rid
    ensures
      var f := Run(s, es);
      && f.mem == s.mem && f.dirty == s.dirty && f.clock == s.clock
      && (forall j :: 0 <= j < |f.saves| ==> rid !in f.saves[j])
      && Of(f.disk, rid) == Settled(s.disk, s.saves, rid)
    decreases |s.saves| - from
  {
    hide Settled, Written;
    if from == |s.saves| {
      es := [];
      UnsavedFile(s.disk, s.saves, rid);
    } else if rid !in s.saves[from] {
      es := FileSettles(s, rid, from + 1);
    } else {
      var e := Write(from, rid);
      WriteSettles(s.disk, s.saves, from, rid);
      var rest := FileSettles(Step(s, e), rid, from + 1);
      es := [e] + rest;
      assert es[1..] == rest;
    }
  }

  ghost predicate AllMade(saves: seq<Book>) {
    forall j :: 0 <= j < |saves| ==> saves[j] == map[]
  }

  /** One save at a time: none starts, and no restart comes, before the writes of the last are made. */
  ghost predicate SerialRun(s: State, es: seq<Event>)
    decreases |es|
  {
    es == [] ||
    (&& Possible(s, es[0])
     && (es[0].Snapshot? || es[0].Restart? ==> AllMade(s.saves))
     && (es[0].Restart? ==> s.dirty == {})
     && SerialRun(Step(s, es[0]), es[1..]))
  }

  /** Only the last save has writes left. */
  ghost predicate AtMostLast(saves: seq<Book>) {
    forall j :: 0 <= j < |saves| - 1 ==> saves[j] == map[]
  }

  lemma SerialStep(s: State, e: Event)
    requires Possible(s, e) && AtMostLast(s.saves) && (e.Snapshot? ==> AllMade(s.saves))
    ensures Orderly(s, e) && AtMostLast(Step(s, e).saves)
  {
    hide Settled, Live;
  }

  lemma {:induction false} SerialIsOrderly(s: State, es: seq<Event>)
    requires SerialRun(s, es) && AtMostLast(s.saves)
    ensures OrderlyRun(s, es)
    decreases |es|
  {
    hide Orderly, AtMostLast, Step, AllMade;
    if es != [] {
      SerialStep(s, es[0]);
      SerialIsOrderly(Step(s, es[0]), es[1..]);
    }
  }

  // ----- tickets are given out once -----

  function GivenTo(s: State, e: Event, rid: RouterId): multiset<Ticket> {
    if e.Extract? && e.rid == rid && Given(s, e).Some? then multiset{Given(s, e).value} else multiset{}
  }

  function StoredFor(e: Event, rid: RouterId): multiset<Ticket> {
    if e.Store? && e.rid == rid then multiset{e.ticket} else multiset{}
  }

  ghost function AllGiven(s: State, es: seq<Event>, rid: RouterId): multiset<Ticket>
    requires PossibleRun(s, es)
    decreases |es|
  {
    if es == [] then multiset{} else GivenTo(s, es[0], rid) + AllGiven(Step(s, es[0]), es[1..], rid)
  }

  function AllStored(es: seq<Event>, rid: RouterId): multiset<Ticket> {
    if es == [] then multiset{} else StoredFor(es[0], rid) + AllStored(es[1..], rid)
  }

  lemma {:induction false} PruneSuffix(s: Tickets, now: int) returns (gone: Tickets)
    ensures s == gone + Prune(s, now) && forall x :: x in gone ==> x.expiry < now
    ensures Prune(s, now) != [] ==> Prune(s, now)[0].expiry >= now
  {
    if s != [] && s[0].expiry < now {
      var rest := PruneSuffix(s[1..], now);
      gone := [s[0]] + rest;
    } else {
      gone := [];
    }
  }

  lemma {:induction false} TrimSuffix(s: Tickets) returns (gone: Tickets)
    ensures s == gone + Trim(s) && |Trim(s)| < MAX_0RTT_TICKETS
    ensures |s| < MAX_0RTT_TICKETS ==> gone == []
    ensures |s| >= MAX_0RTT_TICKETS ==> |Trim(s)| == MAX_0RTT_TICKETS - 1
  {
    if |s| >= MAX_0RTT_TICKETS {
      var rest := TrimSuffix(s[1..]);
      gone := [s[0]] + rest;
    } else {
      gone := [];
    }
  }

  lemma {:induction false} LiveSome(s: Tickets, now: int)
    ensures multiset(Live(s, now)) <= multiset(s)
  {
    if s != [] {
      LiveSome(s[1..], now);
      assert s == [s[0]] + s[1..];
    }
  }

  /** What an extraction gives: the first unexpired ticket held, and nothing if all are expired. */
  lemma GivenIsFirstUnexpired(s: State, rid: RouterId, now: int)
    ensures
      match Given(s, Extract(rid, now))
      case Some(x) =>
        x.expiry >= now
        && exists i :: 0 <= i < |Of(s.mem, rid)| && Of(s.mem, rid)[i] == x && AllExpired(Of(s.mem, rid)[..i], now)
      case None => AllExpired(Of(s.mem, rid), now)
  {
    var held := Of(s.mem, rid);
    var left := Prune(held, now);
    var gone := PruneSuffix(held, now);
    if left != [] {
      assert held[|gone|] == left[0] && held[..|gone|] == gone;
    } else {
      assert held == gone;
    }
  }

  ghost predicate AllExpired(s: Tickets, now: int) {
    forall x :: x in s ==> x.expiry < now
  }

  /** A store leaves at most two tickets: the new one last, and before it the newest held. */
  lemma StoreBounds(s: State, rid: RouterId, ticket: Ticket)
    ensures
      var before, held := Of(s.mem, rid), Of(Step(s, Store(rid, ticket)).mem, rid);
      held == if before == [] then [ticket] else [before[|before| - 1], ticket]
  {
    var gone := TrimSuffix(Of(s.mem, rid));
  }

  /** The tickets one event gives and leaves for a relay, against those held before and stored. */
  ghost predicate Conserves(s: State, e: Event, rid: RouterId)
    requires Possible(s, e)
  {
    GivenTo(s, e, rid) + multiset(Of(Step(s, e).mem, rid)) <= multiset(Of(s.mem, rid)) + StoredFor(e, rid)
  }

  /** A restart brings back nothing that is no longer held: the file's live tickets all are. */
  ghost predicate StillHeld(s: State, now: int, rid: RouterId) {
    multiset(Live(Of(s.disk, rid), now)) <= multiset(Of(s.mem, rid))
  }

  /** Every event conserves the tickets of a relay, a restart if and only if its file is still held. */
  lemma StepConserves(s: State, e: Event, rid: RouterId)
    requires Possible(s, e)
    ensures Conserves(s, e, rid) <==> (e.Restart? ==> StillHeld(s, e.now, rid))
  {
    hide Conserves, StillHeld;
    match e {
      case Store(r, x) => StoreConserves(s, r, x, rid);
      case Extract(r, now) => ExtractConserves(s, r, now, rid);
      case Snapshot(now) => SnapshotConserves(s, now, rid);
      case Write(i, r) => WriteConserves(s, i, r, rid);
      case Restart(now) => RestartConserves(s, now, rid);
    }
  }

  lemma TrimConserves(held: Tickets, x: Ticket)
    ensures multiset(Trim(held) + [x]) <= multiset(held) + multiset{x}
  {
    hide Trim;
    var gone := TrimSuffix(held);
    assert multiset(held) == multiset(gone) + multiset(Trim(held));
    assert multiset(Trim(held) + [x]) == multiset(Trim(held)) + multiset{x};
  }

  lemma StoreConserves(s: State, r: RouterId, x: Ticket, rid: RouterId)
    ensures Conserves(s, Store(r, x), rid)
  {
    hide Trim;
    TrimConserves(Of(s.mem, r), x);
  }

  lemma WriteConserves(s: State, i: nat, r: RouterId, rid: RouterId)
    requires Possible(s, Write(i, r))
    ensures Conserves(s, Write(i, r), rid)
  {
  }

  lemma RestartConserves(s: State, now: int, rid: RouterId)
    requires s.clock <= now
    ensures Conserves(s, Restart(now), rid) <==> StillHeld(s, now, rid)
  {
    hide Live, Loaded;
    RestartAgrees(s, now);
    var back, held := multiset(Of(Loaded(s.disk, now), rid)), multiset(Of(s.mem, rid));
    assert multiset{} + back == back && held + multiset{} == held;
  }

  /** A file that agrees with memory, with nothing left to save or write, is still held. */
  lemma SavedIsHeld(s: State, now: int, rid: RouterId)
    requires Agree(s) && s.clock <= now && rid !in s.dirty
    requires forall j :: 0 <= j < |s.saves| ==> rid !in s.saves[j]
    ensures StillHeld(s, now, rid)
  {
    hide Live;
    UnsavedFile(s.disk, s.saves, rid);
    LiveSome(Of(s.mem, rid), now);
  }

  lemma TakeConserves(held: Tickets, now: int)
    ensures multiset(Prune(held, now)) <= multiset(held)
    ensures Prune(held, now) != [] ==>
              multiset{Prune(held, now)[0]} + multiset(Prune(held, now)[1..]) <= multiset(held)
  {
    hide Prune;
    var left := Prune(held, now);
    var gone := PruneSuffix(held, now);
    assert multiset(held) == multiset(gone) + multiset(left);
    if left != [] {
      assert left == [left[0]] + left[1..];
    }
  }

  lemma ExtractConserves(s: State, r: RouterId, now: int, rid: RouterId)
    requires s.clock <= now
    ensures Conserves(s, Extract(r, now), rid)
  {
    hide Prune;
    if rid == r {
      TakeConserves(Of(s.mem, r), now);
      EmptyPrune(now);
    }
  }

  lemma SnapshotConserves(s: State, now: int, rid: RouterId)
    requires s.clock <= now
    ensures Conserves(s, Snapshot(now), rid)
  {
    hide Prune;
    TakeConserves(Of(s.mem, rid), now);
  }

  /** A run in which every restart finds the relay's file still held. */
  ghost predicate HeldRun(s: State, es: seq<Event>, rid: RouterId)
    ensures HeldRun(s, es, rid) ==> PossibleRun(s, es)
    decreases |es|
  {
    es == [] ||
    (&& Possible(s, es[0])
     && (es[0].Restart? ==> StillHeld(s, es[0].now, rid))
     && HeldRun(Step(s, es[0]), es[1..], rid))
  }

  /**
   Over any such run, whatever the order of writes, the tickets given out for a relay and those
   still held are no more than those held at the start and those stored.
   */
  lemma {:induction false} RunConserves(s: State, es: seq<Event>, rid: RouterId)
    requires HeldRun(s, es, rid)
    ensures AllGiven(s, es, rid) + multiset(Of(Run(s, es).mem, rid)) <=
            multiset(Of(s.mem, rid)) + AllStored(es, rid)
    decreases |es|
  {
    hide Step, Given, GivenTo, StoredFor, Of, StillHeld;
    if es != [] {
      var e, rest, after := es[0], es[1..], Step(s, es[0]);
      StepConserves(s, e, rid);
      RunConserves(after, rest, rid);
      Chain(GivenTo(s, e, rid), AllGiven(after, rest, rid), multiset(Of(s.mem, rid)), multiset(Of(after.mem, rid)),
            multiset(Of(Run(after, rest).mem, rid)), StoredFor(e, rid), AllStored(rest, rid));
    }
  }

  /** One save at a time, and restarts with nothing left to save or write, are enough. */
  lemma {:induction false} SerialIsHeld(s: State, es: seq<Event>, rid: RouterId)
    requires Agree(s) && SerialRun(s, es) && AtMostLast(s.saves)
    ensures HeldRun(s, es, rid)
    decreases |es|
  {
    hide Agree, StillHeld, Orderly, AtMostLast, Step;
    if es != [] {
      var e := es[0];
      if e.Restart? {
        SavedIsHeld(s, e.now, rid);
      }
      SerialStep(s, e);
      StepAgrees(s, e);
      SerialIsHeld(Step(s, e), es[1..], rid);
    }
  }

  lemma Chain(given: multiset<Ticket>, later: multiset<Ticket>, had: multiset<Ticket>, between: multiset<Ticket>,
              held: multiset<Ticket>, stored: multiset<Ticket>, more: multiset<Ticket>)
    requires given + between <= had + stored && later + held <= between + more
    ensures (given + later) + held <= had + (stored + more)
  {
    forall x
      ensures ((given + later) + held)[x] <= (had + (stored + more))[x]
    {
      assert (given + between)[x] <= (had + stored)[x];
      assert (later + held)[x] <= (between + more)[x];
    }
  }

  /** So a ticket stored once is given out at most once. */
  lemma GivenAtMostOnce(s: State, es: seq<Event>, rid: RouterId, x: Ticket)
    requires HeldRun(s, es, rid)
    requires multiset(Of(s.mem, rid))[x] + AllStored(es, rid)[x] <= 1
    ensures AllGiven(s, es, rid)[x] <= 1
  {
    hide *;
    RunConserves(s, es, rid);
    var given, stored := AllGiven(s, es, rid), AllStored(es, rid);
    var had, held := multiset(Of(s.mem, rid)), multiset(Of(Run(s, es).mem, rid));
    assert (given + held)[x] <= (had + stored)[x];
  }

  /** A run in which the ticket is never expired, pushed out by a store, nor missing from the file loaded. */
  ghost predicate KeepingRun(s: State, es: seq<Event>, rid: RouterId, x: Ticket)
    ensures KeepingRun(s, es, rid, x) ==> PossibleRun(s, es)
    decreases |es|
  {
    es == [] ||
    (&& Possible(s, es[0]) && Keeps(s, es[0], rid, x) && KeepingRun(Step(s, es[0]), es[1..], rid, x))
  }

  ghost predicate Keeps(s: State, e: Event, rid: RouterId, x: Ticket) {
    match e
    case Store(r, _) => r == rid ==> |Of(s.mem, rid)| < 2
    case Extract(_, now) => now <= x.expiry
    case Snapshot(now) => now <= x.expiry
    case Write(_, _) => true
    case Restart(now) => now < x.expiry && Live(Of(s.disk, rid), now) == Live(Of(s.mem, rid), now)
  }

  lemma PruneKeeps(s: Tickets, now: int, x: Ticket)
    requires now <= x.expiry
    ensures multiset(Prune(s, now))[x] == multiset(s)[x]
  {
    hide Prune;
    var gone := PruneSuffix(s, now);
    assert x !in gone;
  }

  lemma {:induction false} LiveKeeps(s: Tickets, now: int, x: Ticket)
    requires now < x.expiry
    ensures multiset(Live(s, now))[x] == multiset(s)[x]
  {
    if s != [] {
      LiveKeeps(s[1..], now, x);
      assert s == [s[0]] + s[1..];
    }
  }

  ghost predicate Accounts(s: State, e: Event, rid: RouterId, x: Ticket)
    requires Possible(s, e)
  {
    GivenTo(s, e, rid)[x] + multiset(Of(Step(s, e).mem, rid))[x] == multiset(Of(s.mem, rid))[x] + StoredFor(e, rid)[x]
  }

  lemma StoreAccounts(s: State, r: RouterId, y: Ticket, rid: RouterId, x: Ticket)
    requires r == rid ==> |Of(s.mem, rid)| < 2
    ensures Accounts(s, Store(r, y), rid, x)
  {
    if r == rid {
      var gone := TrimSuffix(Of(s.mem, rid));
    }
  }

  lemma WriteAccounts(s: State, i: nat, r: RouterId, rid: RouterId, x: Ticket)
    requires Possible(s, Write(i, r))
    ensures Accounts(s, Write(i, r), rid, x)
  {
  }

  lemma ExtractAccounts(s: State, r: RouterId, now: int, rid: RouterId, x: Ticket)
    requires s.clock <= now <= x.expiry
    ensures Accounts(s, Extract(r, now), rid, x)
  {
    hide Prune;
    EmptyPrune(now);
    var left := Prune(Of(s.mem, r), now);
    PruneKeeps(Of(s.mem, r), now, x);
    if left != [] {
      assert left == [left[0]] + left[1..];
    }
  }

  lemma SnapshotAccounts(s: State, now: int, rid: RouterId, x: Ticket)
    requires s.clock <= now <= x.expiry
    ensures Accounts(s, Snapshot(now), rid, x)
  {
    hide Prune;
    PruneKeeps(Of(s.mem, rid), now, x);
  }

  lemma RestartAccounts(s: State, now: int, rid: RouterId, x: Ticket)
    requires Possible(s, Restart(now)) && Keeps(s, Restart(now), rid, x)
    ensures Accounts(s, Restart(now), rid, x)
  {
    hide Live, Loaded;
    RestartAgrees(s, now);
    LiveKeeps(Of(s.mem, rid), now, x);
  }

  lemma StepAccounts(s: State, e: Event, rid: RouterId, x: Ticket)
    requires Possible(s, e) && Keeps(s, e, rid, x)
    ensures Accounts(s, e, rid, x)
  {
    hide Prune, Live, Accounts;
    match e {
      case Store(r, y) => StoreAccounts(s, r, y, rid, x);
      case Extract(r, now) => ExtractAccounts(s, r, now, rid, x);
      case Snapshot(now) => SnapshotAccounts(s, now, rid, x);
      case Write(i, r) => WriteAccounts(s, i, r, rid, x);
      case Restart(now) => RestartAccounts(s, now, rid, x);
    }
  }

  /** So no unexpired ticket is lost: over any such run each one held or stored is given out or still held. */
  lemma {:induction false} UnexpiredNeverLost(s: State, es: seq<Event>, rid: RouterId, x: Ticket)
    requires KeepingRun(s, es, rid, x)
    ensures AllGiven(s, es, rid)[x] + multiset(Of(Run(s, es).mem, rid))[x] ==
            multiset(Of(s.mem, rid))[x] + AllStored(es, rid)[x]
    decreases |es|
  {
    hide Step, Given, GivenTo, StoredFor, Of, Keeps;
    if es != [] {
      var e := es[0];
      StepAccounts(s, e, rid, x);
      UnexpiredNeverLost(Step(s, e), es[1..], rid, x);
    }
  }

  // ----- without the discipline -----

  function Nothing(): State {
    State(map[], {}, map[], [], 0)
  }

  /** A run given by the states it goes through. */
  lemma {:induction false} Path(states: seq<State>, es: seq<Event>)
    requires |states| == |es| + 1
    requires forall i :: 0 <= i < |es| ==> Possible(states[i], es[i]) && Step(states[i], es[i]) == states[i + 1]
    ensures PossibleRun(states[0], es) && Run(states[0], es) == states[|es|]
    decreases |es|
  {
    hide Step, Possible;
    if es != [] {
      var rest := es[1..];
      forall i | 0 <= i < |rest|
        ensures Possible(states[1..][i], rest[i]) && Step(states[1..][i], rest[i]) == states[1..][i + 1]
      {
        assert rest[i] == es[i + 1];
      }
      Path(states[1..], rest);
    }
  }

  lemma StoreThenSave(rid: RouterId, x: Ticket)
    requires x.expiry > 0
    ensures Step(Nothing(), Store(rid, x)) == State(map[rid := [x]], {rid}, map[], [], 0)
    ensures Step(State(map[rid := [x]], {rid}, map[], [], 0), Snapshot(0)) ==
            State(map[rid := [x]], {}, map[], [map[rid := [x]]], 0)
  {
    assert Trim([]) + [x] == [x];
    assert Pending(map[rid := [x]], {rid}, 0) == map[rid := [x]];
    assert [] + [map[rid := [x]]] == [map[rid := [x]]];
  }

  lemma ExtractThenSave(rid: RouterId, x: Ticket, disk: Book, saves: seq<Book>)
    requires x.expiry > 0
    ensures Step(State(map[rid := [x]], {}, disk, saves, 0), Extract(rid, 0)) ==
            State(map[rid := []], {rid}, disk, saves, 0)
    ensures Step(State(map[rid := []], {rid}, disk, saves, 0), Snapshot(0)) ==
            State(map[], {}, disk, saves + [map[rid := []]], 0)
  {
    assert Pending(map[rid := []], {rid}, 0) == map[rid := []];
    assert Pruned(map[rid := []], {rid}, 0) == map[];
  }

  lemma WritesCross(rid: RouterId, x: Ticket)
    ensures Step(State(map[], {}, map[], [map[rid := [x]], map[rid := []]], 0), Write(1, rid)) ==
            State(map[], {}, map[], [map[rid := [x]], map[]], 0)
    ensures Step(State(map[], {}, map[], [map[rid := [x]], map[]], 0), Write(0, rid)) ==
            State(map[], {}, map[rid := [x]], [map[], map[]], 0)
  {
  }

  /**
   Two saves whose writes land in the wrong order: the relay is neither changed nor awaiting a
   write, memory has no ticket for it, and its file holds the ticket that was given out.
   */
  lemma OverlappingSavesDisagree(rid: RouterId, x: Ticket)
    requires x.expiry > 0
    ensures var es := [Store(rid, x), Snapshot(0), Extract(rid, 0), Snapshot(0), Write(1, rid), Write(0, rid)];
            && PossibleRun(Nothing(), es)
            && var f := Run(Nothing(), es);
            && f.dirty == {} && AllMade(f.saves)
            && Of(f.mem, rid) == [] && Live(Of(f.disk, rid), 0) == [x]
  {
    hide PossibleRun, Run, Step;
    StoreThenSave(rid, x);
    ExtractThenSave(rid, x, map[], [map[rid := [x]]]);
    WritesCross(rid, x);
    assert [map[rid := [x]]] + [map[rid := []]] == [map[rid := [x]], map[rid := []]];
    Path([Nothing(),
          State(map[rid := [x]], {rid}, map[], [], 0),
          State(map[rid := [x]], {}, map[], [map[rid := [x]]], 0),
          State(map[rid := []], {rid}, map[], [map[rid := [x]]], 0),
          State(map[], {}, map[], [map[rid := [x]], map[rid := []]], 0),
          State(map[], {}, map[], [map[rid := [x]], map[]], 0),
          State(map[], {}, map[rid := [x]], [map[], map[]], 0)],
         [Store(rid, x), Snapshot(0), Extract(rid, 0), Snapshot(0), Write(1, rid), Write(0, rid)]);
  }

  /** A restart before the save: a ticket already given out is loaded and given out again. */
  lemma RestartUnsavedGivesTwice(rid: RouterId, x: Ticket)
    requires x.expiry > 0
    ensures var s := State(map[rid := [x]], {}, map[rid := [x]], [], 0);
            var restarted := Step(Step(s, Extract(rid, 0)), Restart(0));
            Agree(s) && Given(s, Extract(rid, 0)) == Some(x) && Given(restarted, Extract(rid, 0)) == Some(x)
  {
  }

  // ----- the store itself -----

  class TicketStore {
    var tickets: Book
    var dirty: set<RouterId>
    var files: Book

    /** store_0rtt. */
    method StoreTicket(rid: RouterId, ticket: Ticket)
      modifies this
      ensures files == old(files) && dirty == old(dirty) + {rid}
      ensures tickets == old(tickets)[rid := Trim(Of(old(tickets), rid)) + [ticket]]
    {
      if rid !in tickets {
        tickets := tickets[rid := []];
      }
      while |tickets[rid]| >= MAX_0RTT_TICKETS
        invariant rid in tickets && files == old(files) && dirty == old(dirty)
        invariant tickets == old(tickets)[rid := tickets[rid]] && Trim(tickets[rid]) == Trim(Of(old(tickets), rid))
        decreases |tickets[rid]|
      {
        tickets := tickets[rid := tickets[rid][1..]];
      }
      tickets := tickets[rid := tickets[rid] + [ticket]];
      dirty := dirty + {rid};
    }

    /** extract_0rtt. */
    method ExtractTicket(rid: RouterId, now: int) returns (r: Option<Ticket>)
      modifies this
      ensures files == old(files) && dirty == if rid in old(tickets) then old(dirty) + {rid} else old(dirty)
      ensures tickets == Extracted(old(tickets), rid, now)
      ensures r == Given(State(old(tickets), old(dirty), old(files), [], now), Extract(rid, now))
    {
      r := None;
      if rid in tickets {
        PruneTickets(rid, now);
        if tickets[rid] != [] {
          r := Some(tickets[rid][0]);
          tickets := tickets[rid := tickets[rid][1..]];
        }
        dirty := dirty + {rid};
      }
    }

    /** Drops the expired tickets at the front of a relay's list. */
    method PruneTickets(rid: RouterId, now: int)
      requires rid in tickets
      modifies this
      ensures files == old(files) && dirty == old(dirty)
      ensures tickets == old(tickets)[rid := Prune(old(tickets)[rid], now)]
    {
      while tickets[rid] != [] && tickets[rid][0].expiry < now
        invariant rid in tickets && files == old(files) && dirty == old(dirty)
        invariant tickets == old(tickets)[rid := tickets[rid]]
        invariant Prune(tickets[rid], now) == Prune(old(tickets)[rid], now)
        decreases |tickets[rid]|
      {
        tickets := tickets[rid := tickets[rid][1..]];
      }
    }

    /** The part of _0rtt_save under the lock. */
    method TakeSnapshot(now: int) returns (pending: Book)
      modifies this
      ensures files == old(files) && dirty == {}
      ensures pending == Pending(old(tickets), old(dirty), now)
      ensures tickets == Pruned(old(tickets), old(dirty), now)
    {
      hide Prune, Pending, Pruned;
      var left := dirty;
      pending := map[];
      SnapshotNone(tickets, now);
      assert dirty - left == {};
      while left != {}
        invariant left <= dirty && dirty == old(dirty) && files == old(files)
        invariant pending == Pending(old(tickets), dirty - left, now)
        invariant tickets == Pruned(old(tickets), dirty - left, now)
        decreases |left|
      {
        var rid :| rid in left;
        SnapshotOne(old(tickets), dirty - left, rid, now);
        assert dirty - left + {rid} == dirty - (left - {rid});
        left := left - {rid};
        var kept := SnapshotOf(rid, now);
        pending := pending[rid := kept];
      }
      assert dirty - left == dirty;
      dirty := {};
    }

    /** One relay of the snapshot: its tickets, pruned; an entry left with none is removed. */
    method SnapshotOf(rid: RouterId, now: int) returns (kept: Tickets)
      modifies this
      ensures files == old(files) && dirty == old(dirty) && kept == Prune(Of(old(tickets), rid), now)
      ensures tickets == if rid !in old(tickets) then old(tickets)
                         else if kept == [] then old(tickets) - {rid} else old(tickets)[rid := kept]
    {
      if rid !in tickets {
        return [];
      }
      PruneTickets(rid, now);
      kept := tickets[rid];
      if kept == [] {
        tickets := tickets - {rid};
      }
    }

    /** The writes of _0rtt_save when no other save comes between: each relay set down has its file. */
    method WriteFiles(pending: Book)
      modifies this`files
      ensures forall rid :: Of(files, rid) == if rid in pending then pending[rid] else Of(old(files), rid)
    {
      var left := pending.Keys;
      while left != {}
        invariant left <= pending.Keys
        invariant forall rid :: Of(files, rid) ==
                                if rid in pending && rid !in left then pending[rid] else Of(old(files), rid)
        decreases |left|
      {
        var rid :| rid in left;
        files := Written(files, rid, pending[rid]);
        left := left - {rid};
      }
    }

    /** The tickets of load_from_disk: expired ones are left out, files without a live one removed. */
    method LoadTickets(now: int)
      modifies this
      ensures tickets == Loaded(old(files), now) && files == Unpurged(old(files), now) && dirty == {}
    {
      hide Loaded, Unpurged, Dead;
      var left := files.Keys;
      var found: Book, purge: set<RouterId> := map[], {};
      ghost var done: Book := map[];
      assert files - left == map[];
      LoadedNone(now);
      while left != {}
        invariant left <= files.Keys && files == old(files)
        invariant done == files - left
        invariant found == Loaded(done, now) && purge == Dead(done, now)
        decreases |left|
      {
        var rid :| rid in left;
        var kept := KeepLive(files[rid], now);
        LoadedOne(done, rid, files[rid], now);
        DeadOne(done, rid, files[rid], now);
        if kept == [] {
          purge := purge + {rid};
        } else {
          found := found[rid := kept];
        }
        LeaveOne(files, left, rid);
        left := left - {rid};
        done := done[rid := files[rid]];
      }
      assert files - left == files;
      UnpurgedIsLive(done, now);
      tickets, dirty := found, {};
      files := files - purge;
    }
  }

  /** The files without a live ticket. */
  function Dead(disk: Book, now: int): set<RouterId> {
    set rid | rid in disk && Live(disk[rid], now) == []
  }

  lemma LeaveOne(files: Book, left: set<RouterId>, rid: RouterId)
    requires rid in files && rid in left
    ensures files - (left - {rid}) == (files - left)[rid := files[rid]]
  {
  }

  lemma LoadedNone(now: int)
    ensures Loaded(map[], now) == map[] && Dead(map[], now) == {}
  {
  }

  /** One more file loaded. */
  lemma LoadedOne(done: Book, rid: RouterId, s: Tickets, now: int)
    requires rid !in done
    ensures Loaded(done[rid := s], now) ==
            if Live(s, now) == [] then Loaded(done, now) else Loaded(done, now)[rid := Live(s, now)]
  {
    hide Live;
  }

  lemma DeadOne(done: Book, rid: RouterId, s: Tickets, now: int)
    requires rid !in done
    ensures Dead(done[rid := s], now) == if Live(s, now) == [] then Dead(done, now) + {rid} else Dead(done, now)
  {
    hide Live;
  }

  lemma UnpurgedIsLive(disk: Book, now: int)
    ensures Unpurged(disk, now) == disk - Dead(disk, now)
  {
    hide Live;
  }

  lemma SnapshotNone(b: Book, now: int)
    ensures Pending(b, {}, now) == map[] && Pruned(b, {}, now) == b
  {
  }

  /** One more relay in a snapshot. */
  lemma SnapshotOne(b: Book, done: set<RouterId>, rid: RouterId, now: int)
    requires rid !in done
    ensures Pending(b, done + {rid}, now) == Pending(b, done, now)[rid := Prune(Of(b, rid), now)]
    ensures rid in Pruned(b, done, now) <==> rid in b
    ensures rid !in b ==> Prune(Of(b, rid), now) == [] && Pruned(b, done + {rid}, now) == Pruned(b, done, now)
    ensures rid in b ==> Pruned(b, done, now)[rid] == b[rid]
    ensures rid in b ==>
              Pruned(b, done + {rid}, now) ==
              if Prune(b[rid], now) == [] then Pruned(b, done, now) - {rid}
              else Pruned(b, done, now)[rid := Prune(b[rid], now)]
  {
    hide Prune;
    EmptyPrune(now);
  }

  /** The records of a file that have not expired, in order. */
  method KeepLive(records: Tickets, now: int) returns (kept: Tickets)
    ensures kept == Live(records, now)
  {
    kept := [];
    for i := 0 to |records|
      invariant kept + Live(records[i..], now) == Live(records, now)
    {
      assert records[i..][1..] == records[i + 1..];
      if records[i].expiry > now {
        kept := kept + [records[i]];
      }
    }
  }
}
