/**
 * The daemon's control socket: a line protocol with the commands `status`
 * and `stop`, a shutdown signal that `stop` raises, and the accept loop that
 * stops taking connections once it sees the signal.
 */
module Daemon {
  import opened Common
  import opened LineIo

  /** The three replies the handler can write. */
  datatype Reply = Running | Stopping | UnknownCommand

  /** The bytes written for each reply. */
  function ReplyText(r: Reply): string {
    match r
    case Running => "daemon running normally\n"
    case Stopping => "stopping\n"
    case UnknownCommand => "unknown command\n"
  }

  /** The `match cmd`: the reply to a command, that is, to a line already trimmed of whitespace. */
  function ReplyTo(cmd: string): Reply {
    if cmd == "status" then Running
    else if cmd == "stop" then Stopping
    else UnknownCommand
  }

  /** Each reply answers exactly one kind of command, and the three are told apart on the wire. */
  lemma ReplyCases(cmd: string)
    ensures ReplyTo(cmd) == Running <==> cmd == "status"
    ensures ReplyTo(cmd) == Stopping <==> cmd == "stop"
    ensures ReplyTo(cmd) == UnknownCommand <==> cmd != "status" && cmd != "stop"
    ensures forall a: Reply, b: Reply :: ReplyText(a) == ReplyText(b) ==> a == b
  {
    forall a: Reply, b: Reply | ReplyText(a) == ReplyText(b)
      ensures a == b
    {
      assert |ReplyText(a)| == |ReplyText(b)|;
    }
  }

  /**
   * The shutdown watch channel. `value` is what receivers read; `version`
   * counts the sends, and a receiver's `changed()` is ready exactly when the
   * version differs from the one it last saw. The channel starts at false and
   * the daemon only ever sends true, so once true it stays true.
   */
  class ShutdownSignal {
    var value: bool
    var version: nat

    ghost predicate Valid()
      reads this
    {
      value <==> version > 0
    }

    /** `watch::channel(false)` */
    constructor ()
      ensures Valid() && !value && version == 0
    {
      value := false;
      version := 0;
    }

    /** `send(true)`, the only send in the daemon. */
    method SendTrue()
      requires Valid()
      modifies this
      ensures Valid() && value && version == old(version) + 1
    {
      value := true;
      version := version + 1;
    }
  }

  /** Why a connection handler stopped. None of these affects anything but that connection. */
  datatype HandlerEnd = PeerClosed | ReadFailed | WriteFailed

  /** Whether a line, once trimmed, is the `stop` command. */
  predicate IsStop(line: string) {
    Trim(line) == "stop"
  }

  /** What a handler does over a whole connection. */
  datatype Session = Session(written: seq<Reply>, stops: nat, end: HandlerEnd)

  /**
   * The connection handler over a whole connection: every line that
   * `read_line` delivers is answered in order, until the stream ends or a
   * write fails. A line whose reply cannot be written has still been acted
   * on, so a `stop` there still raises the signal.
   */
  function ConnectionSession(peer: Peer): Session
    decreases |peer.data|, 1
  {
    SessionFrom(peer.data, peer.ending, peer.failedWrite)
  }

  /**
   * The handler's read loop over the unread bytes `pending`. Once a line has
   * been answered, what is left is a connection of its own, whose failing
   * write is counted from the next reply.
   */
  function SessionFrom(pending: string, ending: Ending, failedWrite: Option<nat>): Session
    decreases |pending|, 0
  {
    match ReadLine(pending, ending)
    case EndOfInput => Session([], 0, PeerClosed)
    case ReadError => Session([], 0, ReadFailed)
    case Line(text, rest) =>
      var stop := if IsStop(text) then 1 else 0;
      if failedWrite == Some(0) then Session([], stop, WriteFailed)
      else
        var later := ConnectionSession(Peer(rest, ending, Later(failedWrite)));
        Session([ReplyTo(Trim(text))] + later.written, stop + later.stops, later.end)
  }

  /** The lines the handler acts on: every line read, up to the one whose reply cannot be written. */
  function Handled(peer: Peer): seq<string>
    decreases |peer.data|
  {
    match ReadLine(peer.data, peer.ending)
    case Line(text, rest) =>
      if peer.failedWrite == Some(0) then [text] else [text] + Handled(Peer(rest, peer.ending, Later(peer.failedWrite)))
    case _ => []
  }

  /**
   * The handler answers what it acts on: one reply per line, in order,
   * except that the reply whose write fails is missing.
   */
  lemma {:induction false} SessionAnswersHandled(peer: Peer)
    ensures var s := ConnectionSession(peer);
      var h := Handled(peer);
      && |s.written| == (if s.end == WriteFailed then |h| - 1 else |h|)
      && (forall k :: 0 <= k < |s.written| ==> s.written[k] == ReplyTo(Trim(h[k])))
    decreases |peer.data|
  {
    match ReadLine(peer.data, peer.ending)
    case EndOfInput =>
    case ReadError =>
    case Line(text, rest) =>
      if peer.failedWrite != Some(0) {
        var next := Peer(rest, peer.ending, Later(peer.failedWrite));
        SessionAnswersHandled(next);
        assert ConnectionSession(peer).written == [ReplyTo(Trim(text))] + ConnectionSession(next).written;
        assert Handled(peer) == [text] + Handled(next);
      }
  }

  /** A `stop` among the lines the handler acts on raises the signal. */
  lemma {:induction false} HandledStopCounted(peer: Peer, k: nat)
    requires k < |Handled(peer)| && IsStop(Handled(peer)[k])
    ensures ConnectionSession(peer).stops > 0
    decreases |peer.data|
  {
    match ReadLine(peer.data, peer.ending)
    case Line(text, rest) =>
      if k > 0 && peer.failedWrite != Some(0) {
        var next := Peer(rest, peer.ending, Later(peer.failedWrite));
        assert Handled(peer)[k] == Handled(next)[k - 1];
        HandledStopCounted(next, k - 1);
        assert ConnectionSession(peer).stops >= ConnectionSession(next).stops;
      }
  }

  /** The signal is raised only for a `stop` among the lines the handler acts on. */
  lemma {:induction false} CountedStopHandled(peer: Peer) returns (k: nat)
    requires ConnectionSession(peer).stops > 0
    ensures k < |Handled(peer)| && IsStop(Handled(peer)[k])
    decreases |peer.data|
  {
    match ReadLine(peer.data, peer.ending)
    case EndOfInput =>
      assert false;
    case ReadError =>
      assert false;
    case Line(text, rest) =>
      var h := Handled(peer);
      if IsStop(text) {
        assert h[0] == text;
        k := 0;
      } else {
        var next := Peer(rest, peer.ending, Later(peer.failedWrite));
        assert ConnectionSession(next).stops > 0 && h == [text] + Handled(next) by {
          assert ConnectionSession(peer) == SessionFrom(peer.data, peer.ending, peer.failedWrite);
        }
        var k' := CountedStopHandled(next);
        k := k' + 1;
      }
  }

  /** A connection asks the daemon to stop when its handler raises the signal. */
  predicate AsksToStop(peer: Peer) {
    ConnectionSession(peer).stops > 0
  }

  /** A connection asks to stop exactly when one of the lines its handler acts on is `stop`. */
  lemma SessionStopsHandled(peer: Peer)
    ensures var h := Handled(peer);
      AsksToStop(peer) <==> exists k :: 0 <= k < |h| && IsStop(h[k])
  {
    var h := Handled(peer);
    if AsksToStop(peer) {
      var k := CountedStopHandled(peer);
    }
    forall k | 0 <= k < |h| && IsStop(h[k])
      ensures AsksToStop(peer)
    {
      HandledStopCounted(peer, k);
    }
  }

  /**
   * The handler acts on a prefix of the lines `read_line` delivers: all of
   * them, and then the session ends the way the stream does, unless the
   * write of reply number `failedWrite` (counting from 0) fails first, and
   * then it acts on the lines up to that one.
   */
  lemma {:induction false} HandledPrefix(peer: Peer)
    ensures var h := Handled(peer);
      var all := Lines(peer.data, peer.ending);
      var end := ConnectionSession(peer).end;
      && |h| <= |all| && h == all[..|h|]
      && (end == WriteFailed <==> peer.failedWrite.Some? && peer.failedWrite.value < |all|)
      && (end == WriteFailed ==> |h| == peer.failedWrite.value + 1)
      && (end != WriteFailed ==> |h| == |all| && end == if peer.ending == Closed then PeerClosed else ReadFailed)
    decreases |peer.data|
  {
    match ReadLine(peer.data, peer.ending)
    case EndOfInput =>
    case ReadError =>
    case Line(text, rest) =>
      var all := Lines(peer.data, peer.ending);
      assert all == [text] + Lines(rest, peer.ending);
      if peer.failedWrite != Some(0) {
        var next := Peer(rest, peer.ending, Later(peer.failedWrite));
        HandledPrefix(next);
        assert ConnectionSession(peer).end == ConnectionSession(next).end;
        assert Handled(peer) == [text] + Handled(next);
        assert [text] + Lines(rest, peer.ending)[..|Handled(next)|] == all[..|Handled(next)| + 1];
      } else {
        assert all[..1] == [text];
      }
  }

  /** The handler's progress: the replies `written` and the `stops` acted on so far, followed by the session of what is left, `rest`, make up the whole session. */
  ghost predicate SoFar(total: Session, written: seq<Reply>, stops: nat, rest: Peer) {
    var later := ConnectionSession(rest);
    total.written == written + later.written && total.stops == stops + later.stops && total.end == later.end
  }

  /** Answering the next line, whose reply is written, moves the handler on by that line. */
  lemma Advance(total: Session, written: seq<Reply>, stops: nat, rest: Peer)
    requires SoFar(total, written, stops, rest)
    requires ReadLine(rest.data, rest.ending).Line? && rest.failedWrite != Some(0)
    ensures var r := ReadLine(rest.data, rest.ending);
      SoFar(total, written + [ReplyTo(Trim(r.text))], stops + (if IsStop(r.text) then 1 else 0),
        Peer(r.rest, rest.ending, Later(rest.failedWrite)))
  {
    var r := ReadLine(rest.data, rest.ending);
    var later := ConnectionSession(Peer(r.rest, rest.ending, Later(rest.failedWrite)));
    assert ConnectionSession(rest) == SessionFrom(rest.data, rest.ending, rest.failedWrite);
    assert written + ([ReplyTo(Trim(r.text))] + later.written) == (written + [ReplyTo(Trim(r.text))]) + later.written;
  }

  /** When the next read ends the stream, or the next write fails, the handler has done the whole session. */
  lemma Finish(total: Session, written: seq<Reply>, stops: nat, rest: Peer)
    requires SoFar(total, written, stops, rest)
    ensures var r := ReadLine(rest.data, rest.ending);
      && (r.EndOfInput? ==> total == Session(written, stops, PeerClosed))
      && (r.ReadError? ==> total == Session(written, stops, ReadFailed))
      && (r.Line? && rest.failedWrite == Some(0) ==>
          total == Session(written, stops + (if IsStop(r.text) then 1 else 0), WriteFailed))
  {
    assert ConnectionSession(rest) == SessionFrom(rest.data, rest.ending, rest.failedWrite);
    assert written + [] == written;
  }

  /**
   * The `match cmd` arm for one line: `stop` sends true on the signal before
   * its reply is produced; the other commands leave the signal alone.
   */
  method Respond(line: string, signal: ShutdownSignal) returns (reply: Reply)
    requires signal.Valid()
    modifies signal
    ensures signal.Valid()
    ensures reply == ReplyTo(Trim(line))
    ensures signal.version == old(signal.version) + if IsStop(line) then 1 else 0
  {
    var cmd := Trim(line);
    if cmd == "stop" {
      signal.SendTrue();
    }
    reply := ReplyTo(cmd);
  }

  /**
   * The per-connection handler spawned by the accept loop. The line buffer
   * starts empty, gets each chunk appended by `read_line`, and is cleared
   * after each reply, so each reply depends on one line only. A read error
   * counts as end of input; a failed write ends the handler.
   */
  method HandleConnection(peer: Peer, signal: ShutdownSignal) returns (written: seq<Reply>, end: HandlerEnd)
    requires signal.Valid()
    modifies signal
    ensures signal.Valid()
    ensures written == ConnectionSession(peer).written && end == ConnectionSession(peer).end
    ensures signal.version == old(signal.version) + ConnectionSession(peer).stops
    ensures signal.value <==> old(signal.value) || ConnectionSession(peer).stops > 0
  {
    ghost var total := ConnectionSession(peer);
    ghost var stops := 0;
    var pending := peer.data;
    var line := "";
    var i := 0;
    written := [];
    assert written + total.written == total.written;
    assert Shift(peer.failedWrite, 0) == peer.failedWrite;
    while true
      invariant line == ""
      invariant SoFar(total, written, stops, Peer(pending, peer.ending, Shift(peer.failedWrite, i)))
      invariant signal.Valid() && signal.version == old(signal.version) + stops
      decreases |pending|
    {
      ghost var rest := Peer(pending, peer.ending, Shift(peer.failedWrite, i));
      Finish(total, written, stops, rest);
      var r := ReadLine(pending, peer.ending);
      if !r.Line? {
        end := if r.EndOfInput? then PeerClosed else ReadFailed;
        return;
      }
      line := line + r.text;
      assert line == r.text;
      var reply := Respond(line, signal);
      stops := stops + if IsStop(line) then 1 else 0;
      if peer.failedWrite.Some? && peer.failedWrite.value == i {
        end := WriteFailed;
        return;
      }
      Advance(total, written, stops - (if IsStop(line) then 1 else 0), rest);
      assert Later(rest.failedWrite) == Shift(peer.failedWrite, i + 1);
      pending := r.rest;
      written := written + [reply];
      line := "";
      i := i + 1;
    }
  }

  /**
   * A connection that sends one command line, padded with any whitespace, and
   * nothing else gets exactly the reply to that command; only `stop` raises
   * the signal, and it raises it once.
   */
  lemma CommandSession(pre: string, cmd: string, post: string, ending: Ending)
    requires AllSpace(pre) && AllSpace(post) && '\n' !in pre + cmd + post
    requires cmd == [] || (!IsWhitespace(cmd[0]) && !IsWhitespace(cmd[|cmd| - 1]))
    ensures ConnectionSession(Peer(pre + cmd + post + "\n", ending, None)) ==
      Session([ReplyTo(cmd)], if cmd == "stop" then 1 else 0, if ending == Closed then PeerClosed else ReadFailed)
  {
    var l := pre + cmd + post;
    OneLine(l, ending);
    assert AllSpace(post + "\n") by {
      assert forall k :: 0 <= k < |post| ==> (post + "\n")[k] == post[k];
    }
    TrimPadded(pre, cmd, post + "\n");
    assert pre + cmd + (post + "\n") == l + "\n";
    var total := ConnectionSession(Peer(l + "\n", ending, None));
    assert [] + total.written == total.written;
    Advance(total, [], 0, Peer(l + "\n", ending, None));
    Finish(total, [ReplyTo(cmd)], if cmd == "stop" then 1 else 0, Peer([], ending, None));
  }

  /** What a connection offers the accept loop. */
  datatype Arrival = Incoming(peer: Peer) | AcceptError

  /** What the accept loop does on one turn of its biased `select!`. */
  datatype Action =
    | Exit            // the shutdown branch fired and the signal reads true
    | Recheck         // the shutdown branch fired but the signal reads false
    | Spawn(peer: Peer)
    | Fail            // `accept` returned an error, which `?` propagates
    | Block           // nothing is ready: the loop waits

  /**
   * One turn of the accept loop. The shutdown branch is listed first under
   * `biased`, so a pending change wins over a connection that is ready at the
   * same moment.
   */
  function AcceptStep(changePending: bool, value: bool, ready: Option<Arrival>): (a: Action)
    ensures a.Exit? <==> changePending && value
    ensures a.Spawn? || a.Fail? ==> !changePending
    ensures !changePending ==> a == match ready
      case None => Block
      case Some(Incoming(peer)) => Spawn(peer)
      case Some(AcceptError) => Fail
  {
    if changePending then (if value then Exit else Recheck)
    else match ready
      case None => Block
      case Some(Incoming(peer)) => Spawn(peer)
      case Some(AcceptError) => Fail
  }

  /**
   * A pending change always means shutdown: the channel only ever holds false
   * before its first send, so a receiver that has not seen the latest version
   * reads true, and the accept loop exits rather than accept.
   */
  lemma PendingChangeExits(signal: ShutdownSignal, seen: nat, ready: Option<Arrival>)
    requires signal.Valid() && seen <= signal.version && seen != signal.version
    ensures AcceptStep(true, signal.value, ready) == Exit
  {
  }

  /** How the accept loop ended. */
  datatype ServeEnd =
    | ShutDown       // it saw the signal
    | AcceptFailed   // `accept` failed, ending the loop with that error
    | Waiting        // no more connections arrived: it is still waiting

  /** What one arrival means to the accept loop: a connection, and whether it asked to stop, or an error. */
  datatype Turn = Connection(stopped: bool) | Failure

  function TurnOf(a: Arrival): Turn {
    match a
    case Incoming(peer) => Connection(AsksToStop(peer))
    case AcceptError => Failure
  }

  function Turns(arrivals: seq<Arrival>): (ts: seq<Turn>) {
    seq(|arrivals|, j requires 0 <= j < |arrivals| => TurnOf(arrivals[j]))
  }

  /**
   * The accept loop from the `i`-th turn on, when every accepted connection
   * is handled to the end before the next `accept`: how many arrivals it has
   * taken in all and how it ended.
   */
  function ServeFrom(turns: seq<Turn>, i: nat): (nat, ServeEnd)
    requires i <= |turns|
    decreases |turns| - i
  {
    if i == |turns| then (i, Waiting)
    else match turns[i]
      case Failure => (i, AcceptFailed)
      case Connection(stopped) => if stopped then (i + 1, ShutDown) else ServeFrom(turns, i + 1)
  }

  /** The accept loop over all the arrivals. */
  function Serve(arrivals: seq<Arrival>): (nat, ServeEnd) {
    ServeFrom(Turns(arrivals), 0)
  }

  /**
   * The accept loop takes no connection after the one that asked it to stop:
   * the turns it took are connections, none but the last of them asked to
   * stop, and it shut down exactly when the last one did; it fails only on
   * an accept error, and is otherwise still waiting.
   */
  lemma {:induction false} ServeStopsAfterFirstStop(turns: seq<Turn>, i: nat)
    requires i <= |turns|
    ensures i <= ServeFrom(turns, i).0 <= |turns|
    ensures forall j :: i <= j < ServeFrom(turns, i).0 - 1 ==> turns[j] == Connection(false)
    ensures ServeFrom(turns, i).0 > i ==> turns[ServeFrom(turns, i).0 - 1].Connection?
    ensures ServeFrom(turns, i).1 == ShutDown <==>
      ServeFrom(turns, i).0 > i && turns[ServeFrom(turns, i).0 - 1] == Connection(true)
    ensures ServeFrom(turns, i).1 == AcceptFailed <==>
      ServeFrom(turns, i).1 != ShutDown && ServeFrom(turns, i).0 < |turns|
    ensures ServeFrom(turns, i).1 == AcceptFailed ==> turns[ServeFrom(turns, i).0] == Failure
    decreases |turns| - i
  {
    if i < |turns| && turns[i] == Connection(false) {
      ServeStopsAfterFirstStop(turns, i + 1);
    }
  }

  /** The replies written to each of the first `n` arrivals' connections, in order; an accept error gets none. */
  function Answered(arrivals: seq<Arrival>, n: nat): seq<seq<Reply>>
    requires n <= |arrivals|
  {
    if n == 0 then []
    else Answered(arrivals, n - 1) + [match arrivals[n - 1] case Incoming(peer) => ConnectionSession(peer).written case AcceptError => []]
  }

  /** Each of the first `n` arrivals that is a connection gets its whole session's replies. */
  lemma {:induction false} AnsweredSessions(arrivals: seq<Arrival>, n: nat)
    requires n <= |arrivals|
    ensures |Answered(arrivals, n)| == n
    ensures forall j :: 0 <= j < n && arrivals[j].Incoming? ==> Answered(arrivals, n)[j] == ConnectionSession(arrivals[j].peer).written
  {
    if n > 0 {
      AnsweredSessions(arrivals, n - 1);
    }
  }

  /**
   * Taking the connection `peer` at turn `i` adds its session's replies to
   * those written so far, and either shuts the loop down, when the
   * connection asked to stop, or moves it on to the next turn.
   */
  lemma SpawnTurn(arrivals: seq<Arrival>, i: nat, peer: Peer)
    requires i < |arrivals| && arrivals[i] == Incoming(peer)
    ensures Answered(arrivals, i + 1) == Answered(arrivals, i) + [ConnectionSession(peer).written]
    ensures ServeFrom(Turns(arrivals), i) ==
      if AsksToStop(peer) then (i + 1, ShutDown) else ServeFrom(Turns(arrivals), i + 1)
  {
    assert Turns(arrivals)[i] == Connection(AsksToStop(peer));
  }

  /**
   * The control-socket accept loop of `run`, with each accepted connection's
   * handler run to completion before the next turn. Its receiver starts on
   * the channel's initial version.
   */
  method ServeControl(signal: ShutdownSignal, arrivals: seq<Arrival>) returns (served: seq<seq<Reply>>, end: ServeEnd)
    requires signal.Valid() && signal.version == 0
    modifies signal
    ensures signal.Valid()
    ensures |served| <= |arrivals|
    ensures (|served|, end) == Serve(arrivals)
    ensures forall j :: 0 <= j < |served| ==> arrivals[j].Incoming?
    ensures served == Answered(arrivals, |served|)
    ensures signal.value <==> end == ShutDown
  {
    ghost var turns := Turns(arrivals);
    ghost var outcome := ServeFrom(turns, 0);
    var seen := signal.version;
    var i := 0;
    served := [];
    while true
      invariant signal.Valid() && seen == 0
      invariant i <= |arrivals| && |served| == i
      invariant forall j :: 0 <= j < i ==> arrivals[j].Incoming?
      invariant served == Answered(arrivals, i)
      invariant signal.version == 0 ==> outcome == ServeFrom(turns, i)
      invariant signal.version != 0 ==> outcome == (i, ShutDown)
      decreases |arrivals| - i
    {
      var ready := if i < |arrivals| then Some(arrivals[i]) else None;
      var action := AcceptStep(signal.version != seen, signal.value, ready);
      match action
      case Exit =>
        end := ShutDown;
        return;
      case Recheck =>
        // the channel reads false only before its first send
        assert false;
      case Block =>
        end := Waiting;
        return;
      case Fail =>
        end := AcceptFailed;
        return;
      case Spawn(peer) =>
        assert arrivals[i] == Incoming(peer);
        SpawnTurn(arrivals, i, peer);
        var replies, _ := HandleConnection(peer, signal);
        served := served + [replies];
        i := i + 1;
    }
  }
}
