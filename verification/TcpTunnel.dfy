/**
 A TCP connection tunnelled over a stream (src/ev/tcp.cpp): each side may stop sending while
 the other goes on. Socket and stream events come in any order.
 */
module TcpTunnel {
  const SOCKET_ALARM_WATER := 512 * 1024
  const SOCKET_CLEAR_WATER := 64 * 1024

  // ----- what has happened -----

  /**
   What has happened to a connection, without the flags that record what was done about it:
   whether each side has ended, the bytes still to be taken by the application, the stream's
   pause and the socket's reading. `closed` is set once the stream is closed, by the far end or
   after a failure.
   */
  datatype Facts = Facts(
    connected: bool, finSent: bool, finReceived: bool, outLen: nat, paused: bool, reading: bool, closed: bool)

  /** A connection accepted from a local application, or one being made with its stream paused. */
  function Start(connecting: bool): Facts {
    Facts(!connecting, false, false, 0, connecting, true, false)
  }

  /** The far end has ended and the application has all its data: the write side must be shut. */
  predicate Shut(f: Facts) {
    f.finReceived && f.outLen == 0
  }

  /** Both directions have ended, or the stream is closed: the owner must have been told. */
  predicate Over(f: Facts) {
    f.closed || (f.finSent && Shut(f))
  }

  datatype Event =
    | TcpEof
    | TcpConnected
    | TcpError(reentrant: bool)
    | TcpDrained(k: nat)
    | StreamData(n: nat, writeOk: bool)
    | StreamFin
    | StreamClosed
    | OwnerCloses(reentrant: bool)
    | StopReading
    | ResumeReading

  /** A stream delivers no data after its FIN; an application takes no more than is there. */
  predicate Enabled(f: Facts, e: Event) {
    match e
    case StreamData(_, _) => !f.finReceived
    case TcpDrained(k) => 0 < k <= f.outLen
    case _ => true
  }

  function Closed(f: Facts): Facts {
    if Over(f) then f else f.(closed := true)
  }

  function Step(f: Facts, e: Event): Facts
    requires Enabled(f, e)
  {
    match e
    case TcpEof => f.(finSent := true, reading := f.reading && f.finSent)
    case TcpConnected => f.(connected := true, paused := false)
    case TcpError(_) => Closed(f)
    case TcpDrained(k) => f.(outLen := f.outLen - k, paused := f.paused && f.outLen - k > SOCKET_CLEAR_WATER)
    case StreamData(n, writeOk) =>
      if !writeOk then Closed(f)
      else f.(outLen := f.outLen + n, paused := f.paused || f.outLen + n >= SOCKET_ALARM_WATER)
    case StreamFin => f.(finReceived := true)
    case StreamClosed => f.(closed := true)
    case OwnerCloses(_) => Closed(f)
    case StopReading => f.(reading := false)
    case ResumeReading => f.(reading := true)
  }

  ghost predicate CanRun(f: Facts, es: seq<Event>)
    decreases |es|
  {
    es == [] || (Enabled(f, es[0]) && CanRun(Step(f, es[0]), es[1..]))
  }

  ghost function Run(f: Facts, es: seq<Event>): Facts
    requires CanRun(f, es)
    decreases |es|
  {
    if es == [] then f else Run(Step(f, es[0]), es[1..])
  }

  /** A connected socket's stream is paused only while much is left to take. */
  predicate PauseOk(f: Facts) {
    f.paused && f.connected ==> f.outLen > SOCKET_CLEAR_WATER
  }

  lemma EventStays(f: Facts, e: Event)
    requires Enabled(f, e) && PauseOk(f)
    ensures (Shut(f) ==> Shut(Step(f, e))) && (Over(f) ==> Over(Step(f, e))) && PauseOk(Step(f, e))
  {
  }

  /** What has ended stays ended, and no pause outlives its cause, over every run. */
  lemma {:induction false} EndsStay(f: Facts, es: seq<Event>)
    requires CanRun(f, es) && PauseOk(f)
    ensures Shut(f) ==> Shut(Run(f, es))
    ensures Over(f) ==> Over(Run(f, es))
    ensures PauseOk(Run(f, es))
    decreases |es|
  {
    hide Shut, Over, PauseOk, Step;
    if es != [] {
      EventStays(f, es[0]);
      EndsStay(Step(f, es[0]), es[1..]);
    }
  }

  /** Once both sides have finished sending, draining the buffer is all it takes to finish. */
  lemma DrainFinishes(f: Facts)
    requires f.finSent && f.finReceived && f.outLen > 0
    ensures Enabled(f, TcpDrained(f.outLen)) && Over(Step(f, TcpDrained(f.outLen)))
  {
  }

  // ----- the same told from the events alone -----

  /** The event closes the stream, unless both directions have ended. */
  predicate Closes(e: Event) {
    e.TcpError? || e.StreamClosed? || e.OwnerCloses? || (e.StreamData? && !e.writeOk)
  }

  ghost predicate Failed(es: seq<Event>) {
    exists i :: 0 <= i < |es| && Closes(es[i])
  }

  function Change(e: Event): int {
    if e.StreamData? && e.writeOk then e.n else if e.TcpDrained? then 0 - e.k else 0
  }

  /** The bytes handed to the socket less those the application has taken. */
  function Untaken(es: seq<Event>): int {
    if es == [] then 0 else Change(es[0]) + Untaken(es[1..])
  }

  lemma {:induction false} RunTold(f: Facts, es: seq<Event>)
    requires CanRun(f, es) && PauseOk(f)
    ensures var g := Run(f, es);
            && (g.connected <==> f.connected || TcpConnected in es)
            && (g.finSent <==> f.finSent || TcpEof in es)
            && (g.finReceived <==> f.finReceived || StreamFin in es)
            && g.outLen == f.outLen + Untaken(es)
    decreases |es|
  {
    hide Step, PauseOk, Change;
    if es != [] {
      var e, rest := es[0], es[1..];
      assert es == [e] + rest;
      EventStays(f, e);
      RunTold(Step(f, e), rest);
      StepTold(f, e);
    }
  }

  lemma StepTold(f: Facts, e: Event)
    requires Enabled(f, e)
    ensures Step(f, e).connected <==> f.connected || e.TcpConnected?
    ensures Step(f, e).finSent <==> f.finSent || e.TcpEof?
    ensures Step(f, e).finReceived <==> f.finReceived || e.StreamFin?
    ensures Step(f, e).outLen == f.outLen + Change(e)
  {
    hide Over;
    match e {
      case TcpEof =>
      case TcpConnected =>
      case TcpError(_) =>
      case TcpDrained(_) =>
      case StreamData(_, _) =>
      case StreamFin =>
      case StreamClosed =>
      case OwnerCloses(_) =>
      case StopReading =>
      case ResumeReading =>
    }
  }

  /** The stream is closed only by an event that closes it, and after such an event all is over. */
  lemma {:induction false} RunOver(f: Facts, es: seq<Event>)
    requires CanRun(f, es) && PauseOk(f)
    ensures Run(f, es).closed ==> f.closed || Failed(es)
    ensures Failed(es) ==> Over(Run(f, es))
    decreases |es|
  {
    hide PauseOk, Over;
    if es != [] {
      var e, rest := es[0], es[1..];
      EventStays(f, e);
      RunOver(Step(f, e), rest);
      EndsStay(Step(f, e), rest);
      StepOver(f, e);
      FailedCons(es);
    }
  }

  lemma StepOver(f: Facts, e: Event)
    requires Enabled(f, e)
    ensures Step(f, e).closed ==> f.closed || Closes(e)
    ensures Closes(e) ==> Over(Step(f, e))
  {
  }

  lemma FailedCons(es: seq<Event>)
    requires es != []
    ensures Failed(es) <==> Closes(es[0]) || Failed(es[1..])
  {
    if Failed(es) && !Closes(es[0]) {
      var i :| 0 <= i < |es| && Closes(es[i]);
      assert Closes(es[1..][i - 1]);
    }
    if j :| 0 <= j < |es[1..]| && Closes(es[1..][j]) {
      assert Closes(es[j + 1]);
    }
  }

  /** The stream of an accepted connection is paused whenever much is left to take. */
  lemma {:induction false} FullIsPaused(f: Facts, es: seq<Event>)
    requires CanRun(f, es) && TcpConnected !in es && (f.outLen >= SOCKET_ALARM_WATER ==> f.paused)
    ensures Run(f, es).outLen >= SOCKET_ALARM_WATER ==> Run(f, es).paused
    decreases |es|
  {
    if es != [] {
      FullIsPaused(Step(f, es[0]), es[1..]);
    }
  }

  /** Reading was stopped, by the application's first end or by request, and not resumed since. */
  ghost predicate Stopped(ended: bool, es: seq<Event>) {
    exists i :: 0 <= i < |es| && StopsAt(ended, es, i) && ResumeReading !in es[i..]
  }

  ghost predicate StopsAt(ended: bool, es: seq<Event>, i: nat)
    requires i < |es|
  {
    es[i] == StopReading || (es[i] == TcpEof && !ended && TcpEof !in es[..i])
  }

  lemma StoppedCons(ended: bool, es: seq<Event>)
    requires es != []
    ensures Stopped(ended, es) <==>
            (StopsAt(ended, es, 0) && ResumeReading !in es[1..]) || Stopped(ended || es[0] == TcpEof, es[1..])
  {
    hide StopsAt;
    var rest, now := es[1..], ended || es[0] == TcpEof;
    if i :| 0 <= i < |es| && StopsAt(ended, es, i) && ResumeReading !in es[i..] {
      if i == 0 {
        assert es == [es[0]] + rest;
      } else {
        StopsLater(ended, es, i - 1);
      }
    }
    if j :| 0 <= j < |rest| && StopsAt(now, rest, j) && ResumeReading !in rest[j..] {
      StopsLater(ended, es, j);
    }
    if StopsAt(ended, es, 0) && ResumeReading !in rest {
      StopIsNotResume(ended, es);
    }
  }

  lemma StopsLater(ended: bool, es: seq<Event>, j: nat)
    requires j + 1 < |es|
    ensures es[j + 1..] == es[1..][j..]
    ensures StopsAt(ended, es, j + 1) <==> StopsAt(ended || es[0] == TcpEof, es[1..], j)
  {
    assert es[..j + 1] == [es[0]] + es[1..][..j];
  }

  lemma StopIsNotResume(ended: bool, es: seq<Event>)
    requires es != [] && StopsAt(ended, es, 0) && ResumeReading !in es[1..]
    ensures ResumeReading !in es[0..]
  {
    assert es[0..] == [es[0]] + es[1..];
  }

  lemma {:induction false} RunReading(f: Facts, es: seq<Event>)
    requires CanRun(f, es)
    ensures !Run(f, es).reading <==> Stopped(f.finSent, es) || (!f.reading && ResumeReading !in es)
    decreases |es|
  {
    hide Stopped, Step;
    if es == [] {
      assert !Stopped(f.finSent, es) by {
        NeverStopped(f.finSent);
      }
    } else {
      RunReading(Step(f, es[0]), es[1..]);
      StoppedCons(f.finSent, es);
      ReadingStep(f, es[0]);
      StepTold(f, es[0]);
      assert es == [es[0]] + es[1..];
    }
  }

  lemma NeverStopped(ended: bool)
    ensures !Stopped(ended, [])
  {
  }

  lemma ReadingStep(f: Facts, e: Event)
    requires Enabled(f, e)
    ensures Step(f, e).reading ==
            match e {
              case TcpEof => f.reading && f.finSent
              case StopReading => false
              case ResumeReading => true
              case _ => f.reading
            }
  {
    hide Over;
  }

  // ----- what the connection does about it -----

  class TCPConnection {
    var connected: bool
    var finSent: bool
    var finReceived: bool
    var writeShutdown: bool
    var finished: bool
    var outLen: nat       // length of the bufferevent's output buffer
    var paused: bool      // of the stream
    var reading: bool     // EV_READ enabled
    var closed: bool
    // what an observer can count
    var doneCalls: nat    // calls of on_done
    var shutdowns: nat    // of the write side
    var finsSent: nat

    ghost function Seen(): Facts
      reads this
    {
      Facts(connected, finSent, finReceived, outLen, paused, reading, closed)
    }

    /**
     Nothing has been done too early or twice: each effect has happened as often as its flag says,
     the write side is not shut while it may not be, and done is told exactly when it is due.
     */
    ghost predicate Careful()
      reads this
    {
      && doneCalls == (if finished then 1 else 0)
      && shutdowns == (if writeShutdown then 1 else 0)
      && finsSent == (if finSent then 1 else 0)
      && (writeShutdown ==> Shut(Seen()))
      && (finished <==> closed || (finSent && writeShutdown))
    }

    /** And nothing is left undone: the write side is shut exactly when it must be. */
    ghost predicate Valid()
      reads this
      ensures Valid() ==> (finished <==> Over(Seen()))
    {
      Careful() && (writeShutdown <==> Shut(Seen()))
    }

    constructor (connecting: bool)
      ensures Valid() && Seen() == Start(connecting)
    {
      connected, finSent, finReceived, writeShutdown, finished := !connecting, false, false, false, false;
      outLen, paused, reading, closed := 0, connecting, true, false;
      doneCalls, shutdowns, finsSent := 0, 0, 0;
    }

    /** finish: the owner is told, once. */
    method Finish()
      requires doneCalls == if finished then 1 else 0
      modifies this`finished, this`doneCalls
      ensures finished && doneCalls == 1
    {
      if finished {
        return;
      }
      finished := true;
      doneCalls := doneCalls + 1;
    }

    /** flush_and_shutdown_write: does what is left undone after a FIN, and nothing else. */
    method FlushAndShutdownWrite()
      requires Careful() && finReceived
      modifies this`writeShutdown, this`shutdowns, this`finished, this`doneCalls
      ensures Valid()
    {
      if writeShutdown {
        return;
      }
      if outLen > 0 {
        return;
      }
      writeShutdown := true;
      shutdowns := shutdowns + 1;
      if finSent {
        Finish();
      }
    }

    method OnTcpEof()
      requires Valid()
      modifies this
      ensures Valid() && Seen() == Step(old(Seen()), TcpEof)
    {
      if finSent {
        return;
      }
      finSent := true;
      reading := false;
      finsSent := finsSent + 1;
      if writeShutdown {
        Finish();
      }
    }

    method OnStreamFin()
      requires Valid()
      modifies this
      ensures Valid() && Seen() == Step(old(Seen()), StreamFin)
    {
      finReceived := true;
      FlushAndShutdownWrite();
    }

    /** on_write_available: resumes the stream and makes up for a shutdown put off earlier. */
    method OnWriteAvailable()
      requires Careful()
      modifies this
      ensures Valid() && Seen() == old(Seen()).(paused := false)
    {
      if paused {
        paused := false;
      }
      if finReceived {
        FlushAndShutdownWrite();
      }
    }

    /** close; `reentrant`: closing the stream calls back into the connection before it returns. */
    method Close(reentrant: bool)
      requires Valid()
      modifies this
      ensures Valid() && Seen() == Closed(old(Seen()))
    {
      if finished {
        return;
      }
      closed := true;
      if reentrant {
        Finish();
      }
      Finish();
    }

    method OnConnected()
      requires Valid()
      modifies this`connected, this`paused
      ensures Valid() && Seen() == Step(old(Seen()), TcpConnected)
    {
      connected, paused := true, false;
    }

    /** The stream's close callback. */
    method OnStreamClosed()
      requires Valid()
      modifies this
      ensures Valid() && Seen() == Step(old(Seen()), StreamClosed)
    {
      closed := true;
      Finish();
    }

    /** stop_reading and resume_reading. */
    method SetReading(on: bool)
      requires Valid()
      modifies this`reading
      ensures Valid() && Seen() == old(Seen()).(reading := on)
    {
      reading := on;
    }

    /** The stream's data callback. */
    method OnStreamData(n: nat, writeOk: bool)
      requires Valid() && Enabled(Seen(), StreamData(n, writeOk))
      modifies this
      ensures Valid() && Seen() == Step(old(Seen()), StreamData(n, writeOk))
    {
      if !writeOk {
        Close(false);
        return;
      }
      outLen := outLen + n;
      if !paused && outLen >= SOCKET_ALARM_WATER {
        paused := true;
      }
    }

    /** The application takes k bytes; at or below the low watermark the write callback runs. */
    method OnDrained(k: nat)
      requires Valid() && Enabled(Seen(), TcpDrained(k))
      modifies this
      ensures Valid() && Seen() == Step(old(Seen()), TcpDrained(k))
    {
      outLen := outLen - k;
      if outLen <= SOCKET_CLEAR_WATER {
        OnWriteAvailable();
      }
    }

    /** Any event: what has happened is recorded, and everything due is done and done once. */
    method Handle(e: Event)
      requires Valid() && Enabled(Seen(), e)
      modifies this
      ensures Valid() && Seen() == Step(old(Seen()), e)
    {
      hide Careful, Shut, Over;
      match e
      case TcpEof => OnTcpEof();
      case TcpConnected => OnConnected();
      case TcpError(reentrant) => Close(reentrant);
      case TcpDrained(k) => OnDrained(k);
      case StreamData(n, writeOk) => OnStreamData(n, writeOk);
      case StreamFin => OnStreamFin();
      case StreamClosed => OnStreamClosed();
      case OwnerCloses(reentrant) => Close(reentrant);
      case StopReading => SetReading(false);
      case ResumeReading => SetReading(true);
    }
  }

  /**
   For every interleaving, from its events alone: a FIN is sent if and only if the application
   has ended; the write side is shut down, once, if and only if the stream's FIN has come and the
   application has taken everything; on_done is called, once, if and only if both are so or
   something closed the stream; the stream of a connected socket is never left paused once the
   buffer has drained, and that of an accepted one is always paused while the buffer is full;
   and the socket is read unless reading was stopped and not resumed since.
   */
  method Replay(connecting: bool, es: seq<Event>) returns (c: TCPConnection)
    requires CanRun(Start(connecting), es)
    ensures fresh(c) && c.Seen() == Run(Start(connecting), es)
    ensures c.finsSent <= 1 && (c.finsSent == 1 <==> TcpEof in es)
    ensures c.shutdowns <= 1 && (c.shutdowns == 1 <==> StreamFin in es && Untaken(es) == 0)
    ensures c.doneCalls <= 1 && (c.doneCalls == 1 <==> c.closed || (c.finsSent == 1 && c.shutdowns == 1))
    ensures c.doneCalls == 1 <==> Failed(es) || (TcpEof in es && StreamFin in es && Untaken(es) == 0)
    ensures c.paused && (!connecting || TcpConnected in es) ==> Untaken(es) > 65536
    ensures !connecting && TcpConnected !in es && Untaken(es) >= 524288 ==> c.paused
    ensures !c.reading <==> Stopped(false, es)
  {
    hide Step, Failed, Untaken, Stopped;
    c := new TCPConnection(connecting);
    EndsStay(Start(connecting), es);
    RunTold(Start(connecting), es);
    RunOver(Start(connecting), es);
    RunReading(Start(connecting), es);
    if !connecting && TcpConnected !in es {
      FullIsPaused(Start(connecting), es);
    }
    for i := 0 to |es|
      invariant c.Valid() && CanRun(c.Seen(), es[i..]) && Run(c.Seen(), es[i..]) == Run(Start(connecting), es)
    {
      assert es[i..][0] == es[i] && es[i..][1..] == es[i + 1..];
      c.Handle(es[i]);
    }
  }
}
