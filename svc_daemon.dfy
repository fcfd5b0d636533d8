/**
 * The older standalone daemon's control socket. It speaks the same line
 * protocol as the current daemon, but its commands are `status` and
 * `reload`; it has no `stop` and no shutdown signal, and its handler
 * unwraps every read and write, so an I/O error panics the connection's
 * task instead of ending it quietly.
 */
module SvcDaemon {
  import opened Common
  import opened LineIo

  /** The three replies the handler can write. */
  datatype Reply = Running | Reloaded | UnknownCommand

  /** The bytes written for each reply. */
  function ReplyText(r: Reply): string {
    match r
    case Running => "daemon running normally\n"
    case Reloaded => "reloaded\n"
    case UnknownCommand => "unknown command\n"
  }

  /** The `match cmd`: the reply to a command, that is, to a line already trimmed of whitespace. */
  function ReplyTo(cmd: string): Reply {
    if cmd == "status" then Running
    else if cmd == "reload" then Reloaded
    else UnknownCommand
  }

  /**
   * Each reply answers exactly one kind of command, and the three are told
   * apart on the wire. `stop` is not a command here: it is unknown.
   */
  lemma ReplyCases(cmd: string)
    ensures ReplyTo(cmd) == Running <==> cmd == "status"
    ensures ReplyTo(cmd) == Reloaded <==> cmd == "reload"
    ensures ReplyTo(cmd) == UnknownCommand <==> cmd != "status" && cmd != "reload"
    ensures cmd == "stop" ==> ReplyTo(cmd) == UnknownCommand
    ensures forall a: Reply, b: Reply :: ReplyText(a) == ReplyText(b) ==> a == b
  {
    forall a: Reply, b: Reply | ReplyText(a) == ReplyText(b)
      ensures a == b
    {
      assert |ReplyText(a)| == |ReplyText(b)|;
    }
  }

  /**
   * How a connection's task ends: the peer closed its side, or an `unwrap`
   * panicked on a failed read or a failed write.
   */
  datatype HandlerEnd = PeerClosed | ReadPanicked | WritePanicked

  /** What a handler does over a whole connection. */
  datatype Session = Session(written: seq<Reply>, end: HandlerEnd)

  /** The connection handler over a whole connection. */
  function ConnectionSession(peer: Peer): Session
    decreases |peer.data|, 1
  {
    SessionFrom(peer.data, peer.ending, peer.failedWrite)
  }

  /**
   * The handler's read loop over the unread bytes `pending`: every line that
   * `read_line` delivers is answered in order, until a read returns 0 bytes
   * or an I/O error panics. Once a line has been answered, what is left is a
   * connection of its own, whose failing write is counted from the next reply.
   */
  function SessionFrom(pending: string, ending: Ending, failedWrite: Option<nat>): Session
    decreases |pending|, 0
  {
    match ReadLine(pending, ending)
    case EndOfInput => Session([], PeerClosed)
    case ReadError => Session([], ReadPanicked)
    case Line(text, rest) =>
      if failedWrite == Some(0) then Session([], WritePanicked)
      else
        var later := ConnectionSession(Peer(rest, ending, Later(failedWrite)));
        Session([ReplyTo(Trim(text))] + later.written, later.end)
  }

  /**
   * How a connection's task ends, in terms of the lines `read_line` delivers:
   * it answers all of them and then either finishes cleanly (the peer
   * closed) or panics on the broken stream; unless the write of reply number
   * `failedWrite` (counting from 0) fails first, which panics with exactly
   * the replies before it written.
   */
  lemma {:induction false} SessionEnds(peer: Peer)
    ensures var s := ConnectionSession(peer);
      var all := Lines(peer.data, peer.ending);
      && (s.end == WritePanicked <==> peer.failedWrite.Some? && peer.failedWrite.value < |all|)
      && |s.written| == (if s.end == WritePanicked then peer.failedWrite.value else |all|)
      && (s.end != WritePanicked ==> s.end == if peer.ending == Closed then PeerClosed else ReadPanicked)
    decreases |peer.data|
  {
    var s := ConnectionSession(peer);
    if ReadLine(peer.data, peer.ending).Line? {
      var text, rest := ReadLine(peer.data, peer.ending).text, ReadLine(peer.data, peer.ending).rest;
      assert Lines(peer.data, peer.ending) == [text] + Lines(rest, peer.ending);
      if peer.failedWrite != Some(0) {
        var next := Peer(rest, peer.ending, Later(peer.failedWrite));
        var s' := ConnectionSession(next);
        assert |s.written| == 1 + |s'.written| && s.end == s'.end by {
          assert s == SessionFrom(peer.data, peer.ending, peer.failedWrite);
        }
        SessionEnds(next);
      }
    }
  }

  /** Each reply written answers the line `read_line` delivered in its place, in order. */
  lemma {:induction false} SessionAnswersLines(peer: Peer)
    ensures var s := ConnectionSession(peer);
      var all := Lines(peer.data, peer.ending);
      && |s.written| <= |all|
      && (forall k :: 0 <= k < |s.written| ==> s.written[k] == ReplyTo(Trim(all[k])))
    decreases |peer.data|
  {
    SessionEnds(peer);
    var s := ConnectionSession(peer);
    var all := Lines(peer.data, peer.ending);
    if ReadLine(peer.data, peer.ending).Line? && peer.failedWrite != Some(0) {
      var text, rest := ReadLine(peer.data, peer.ending).text, ReadLine(peer.data, peer.ending).rest;
      var next := Peer(rest, peer.ending, Later(peer.failedWrite));
      var s' := ConnectionSession(next);
      var all' := Lines(rest, peer.ending);
      assert all == [text] + all';
      assert s.written == [ReplyTo(Trim(text))] + s'.written by {
        assert s == SessionFrom(peer.data, peer.ending, peer.failedWrite);
      }
      SessionAnswersLines(next);
      forall k | 1 <= k < |s.written|
        ensures s.written[k] == ReplyTo(Trim(all[k]))
      {
        assert s.written[k] == s'.written[k - 1] && all[k] == all'[k - 1];
      }
    } else if ReadLine(peer.data, peer.ending).Line? {
      assert s.written == [] by {
        assert s == SessionFrom(peer.data, peer.ending, peer.failedWrite);
      }
    }
  }

  /** The handler's progress: the replies `written` so far, followed by the session of what is left, `rest`, make up the whole session. */
  ghost predicate SoFar(total: Session, written: seq<Reply>, rest: Peer) {
    var later := ConnectionSession(rest);
    total.written == written + later.written && total.end == later.end
  }

  /** Answering the next line, whose reply is written, moves the handler on by that line. */
  lemma Advance(total: Session, written: seq<Reply>, rest: Peer)
    requires SoFar(total, written, rest)
    requires ReadLine(rest.data, rest.ending).Line? && rest.failedWrite != Some(0)
    ensures var r := ReadLine(rest.data, rest.ending);
      SoFar(total, written + [ReplyTo(Trim(r.text))], Peer(r.rest, rest.ending, Later(rest.failedWrite)))
  {
    var r := ReadLine(rest.data, rest.ending);
    var later := ConnectionSession(Peer(r.rest, rest.ending, Later(rest.failedWrite)));
    assert ConnectionSession(rest) == SessionFrom(rest.data, rest.ending, rest.failedWrite);
    assert written + ([ReplyTo(Trim(r.text))] + later.written) == (written + [ReplyTo(Trim(r.text))]) + later.written;
  }

  /** When the next read returns 0 bytes, or the next read or write panics, the handler has done the whole session. */
  lemma Finish(total: Session, written: seq<Reply>, rest: Peer)
    requires SoFar(total, written, rest)
    ensures var r := ReadLine(rest.data, rest.ending);
      && (r.EndOfInput? ==> total == Session(written, PeerClosed))
      && (r.ReadError? ==> total == Session(written, ReadPanicked))
      && (r.Line? && rest.failedWrite == Some(0) ==> total == Session(written, WritePanicked))
  {
    assert ConnectionSession(rest) == SessionFrom(rest.data, rest.ending, rest.failedWrite);
    assert written + [] == written;
  }

  /**
   * The spawned per-connection task. `read_line(..).unwrap()` panics on a
   * read error, and the loop runs while it returns more than 0 bytes; each
   * line is trimmed and answered, the `write_all(..).unwrap()` panics if the
   * write fails, and the line buffer is cleared for the next line.
   */
  method HandleConnection(peer: Peer) returns (written: seq<Reply>, end: HandlerEnd)
    ensures written == ConnectionSession(peer).written && end == ConnectionSession(peer).end
  {
    ghost var total := ConnectionSession(peer);
    var pending := peer.data;
    var line := "";
    var i := 0;
    written := [];
    assert written + total.written == total.written;
    assert Shift(peer.failedWrite, 0) == peer.failedWrite;
    while true
      invariant line == ""
      invariant SoFar(total, written, Peer(pending, peer.ending, Shift(peer.failedWrite, i)))
      decreases |pending|
    {
      ghost var rest := Peer(pending, peer.ending, Shift(peer.failedWrite, i));
      Finish(total, written, rest);
      var r := ReadLine(pending, peer.ending);
      if r.ReadError? {
        end := ReadPanicked;
        return;
      } else if r.EndOfInput? {
        end := PeerClosed;
        return;
      }
      line := line + r.text;
      assert line == r.text;
      var reply := ReplyTo(Trim(line));
      if peer.failedWrite.Some? && peer.failedWrite.value == i {
        end := WritePanicked;
        return;
      }
      Advance(total, written, rest);
      assert Later(rest.failedWrite) == Shift(peer.failedWrite, i + 1);
      written := written + [reply];
      pending := r.rest;
      line := "";
      i := i + 1;
    }
  }
}
