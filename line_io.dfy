/**
 * The two pieces of standard-library text handling that both control-socket
 * handlers are built on: `str::trim`, and `read_line` on a buffered reader,
 * which hands out a peer's byte stream one newline-terminated chunk at a time.
 */
module LineIo {
  import opened Common

  /** `char::is_whitespace`: the Unicode White_Space property. */
  predicate IsWhitespace(c: char) {
    || ('\t' <= c <= '\r')   // tab, line feed, vertical tab, form feed, carriage return
    || c == ' '
    || c == '\U{85}' || c == '\U{A0}' || c == '\U{1680}'
    || ('\U{2000}' <= c <= '\U{200A}')
    || c == '\U{2028}' || c == '\U{2029}' || c == '\U{202F}' || c == '\U{205F}'
    || c == '\U{3000}'
  }

  predicate AllSpace(s: string) {
    forall i :: 0 <= i < |s| ==> IsWhitespace(s[i])
  }

  /** `s` without its leading whitespace. */
  function TrimStart(s: string): string {
    if s != [] && IsWhitespace(s[0]) then TrimStart(s[1..]) else s
  }

  /** `s` without its trailing whitespace. */
  function TrimEnd(s: string): string {
    if s != [] && IsWhitespace(s[|s| - 1]) then TrimEnd(s[..|s| - 1]) else s
  }

  /** `str::trim`: `s` with its leading and trailing whitespace removed. */
  function Trim(s: string): string {
    TrimEnd(TrimStart(s))
  }

  /** TrimStart drops a whitespace prefix and keeps the rest, which starts with a non-whitespace character. */
  lemma {:induction false} TrimStartSuffix(s: string)
    ensures |TrimStart(s)| <= |s| && TrimStart(s) == s[|s| - |TrimStart(s)|..]
    ensures AllSpace(s[..|s| - |TrimStart(s)|])
    ensures TrimStart(s) == [] || !IsWhitespace(TrimStart(s)[0])
  {
    if s != [] && IsWhitespace(s[0]) {
      TrimStartSuffix(s[1..]);
      var k := |s| - |TrimStart(s)|;
      assert s[1..][..k - 1] == s[1..k];
      assert forall i :: 1 <= i < k ==> s[i] == s[1..k][i - 1];
    }
  }

  /** TrimEnd drops a whitespace suffix and keeps the rest, which ends with a non-whitespace character. */
  lemma {:induction false} TrimEndPrefix(s: string)
    ensures |TrimEnd(s)| <= |s| && TrimEnd(s) == s[..|TrimEnd(s)|]
    ensures AllSpace(s[|TrimEnd(s)|..])
    ensures TrimEnd(s) == [] || !IsWhitespace(TrimEnd(s)[|TrimEnd(s)| - 1])
  {
    if s != [] && IsWhitespace(s[|s| - 1]) {
      var init := s[..|s| - 1];
      TrimEndPrefix(init);
      var k := |TrimEnd(s)|;
      assert init[..k] == s[..k];
      assert forall i :: k <= i < |s| - 1 ==> s[i] == init[k..][i - k];
    }
  }

  /**
   * Trim's result is the slice of `s` that runs from its first non-whitespace
   * character to its last one: everything before and after it is whitespace,
   * and it neither starts nor ends with whitespace.
   */
  lemma TrimIsSlice(s: string)
    ensures exists a ::
      && 0 <= a && a + |Trim(s)| <= |s| && Trim(s) == s[a..a + |Trim(s)|]
      && AllSpace(s[..a]) && AllSpace(s[a + |Trim(s)|..])
    ensures Trim(s) == [] || (!IsWhitespace(Trim(s)[0]) && !IsWhitespace(Trim(s)[|Trim(s)| - 1]))
  {
    var t := TrimStart(s);
    TrimStartSuffix(s);
    TrimEndPrefix(t);
    var r := Trim(s);
    var a := |s| - |t|;
    assert r == s[a..a + |r|];
    assert AllSpace(s[a + |r|..]) by {
      assert s[a + |r|..] == t[|r|..];
    }
    if r != [] {
      assert r[0] == t[0];
    }
  }

  lemma {:induction false} TrimStartPadded(p: string, w: string)
    requires AllSpace(p)
    requires w == [] || !IsWhitespace(w[0])
    ensures TrimStart(p + w) == w
  {
    if p != [] {
      assert (p + w)[1..] == p[1..] + w;
      TrimStartPadded(p[1..], w);
    } else {
      assert p + w == w;
    }
  }

  lemma {:induction false} TrimEndPadded(w: string, q: string)
    requires AllSpace(q)
    requires w == [] || !IsWhitespace(w[|w| - 1])
    ensures TrimEnd(w + q) == w
  {
    if q != [] {
      assert (w + q)[..|w + q| - 1] == w + q[..|q| - 1];
      TrimEndPadded(w, q[..|q| - 1]);
    } else {
      assert w + q == w;
    }
  }

  /**
   * The converse of TrimIsSlice: whatever whitespace surrounds a word that
   * neither starts nor ends with whitespace, trimming gives back the word.
   * (So "status\n", " stop \r\n" and "status" all trim to the command.)
   */
  lemma TrimPadded(p: string, w: string, q: string)
    requires AllSpace(p) && AllSpace(q)
    requires w == [] || (!IsWhitespace(w[0]) && !IsWhitespace(w[|w| - 1]))
    ensures Trim(p + w + q) == w
  {
    var s := p + w + q;
    if w == [] {
      assert s == p + q;
      assert AllSpace(s);
      TrimStartPadded(s, []);
      assert s + [] == s;
    } else {
      assert s == p + (w + q);
      TrimStartPadded(p, w + q);
      TrimEndPadded(w, q);
    }
  }

  /** How a peer's stream ends once all its bytes have been read. */
  datatype Ending =
    | Closed   // the peer closes the connection: the next read returns 0 bytes
    | Broken   // the connection fails: the next read returns an error

  /** Outcome of one `read_line` call on the unread part of the stream. */
  datatype ReadResult =
    | Line(text: string, rest: string)   // Ok(n) with n > 0: `text` is appended to the buffer
    | EndOfInput                         // Ok(0)
    | ReadError                          // Err(_)

  /**
   * One accepted connection, as the environment behaves: the bytes the peer
   * sends, how its stream ends, and which write (counting from 0), if any,
   * is the first to fail.
   */
  datatype Peer = Peer(data: string, ending: Ending, failedWrite: Option<nat>)

  /** The failing write, counted from one reply later. */
  function Later(failedWrite: Option<nat>): Option<nat>
    requires failedWrite != Some(0)
  {
    match failedWrite
    case Some(n) => Some(n - 1)
    case None => None
  }

  /** The failing write `failedWrite` (counting from 0), counted from reply number `i` on; none if it came earlier. */
  function Shift(failedWrite: Option<nat>, i: nat): Option<nat> {
    match failedWrite
    case Some(n) => if n < i then None else Some(n - i)
    case None => None
  }

  /** Length of the prefix of `s` up to and including its first '\n'; 0 when there is none. */
  function LineLength(s: string): (n: nat)
    ensures n <= |s|
  {
    if s == [] then 0
    else if s[0] == '\n' then 1
    else
      var k := LineLength(s[1..]);
      if k == 0 then 0 else k + 1
  }

  /** LineLength finds the first '\n', or reports that there is none. */
  lemma {:induction false} LineLengthFindsNewline(s: string)
    ensures LineLength(s) > 0 ==> s[LineLength(s) - 1] == '\n' && '\n' !in s[..LineLength(s) - 1]
    ensures LineLength(s) == 0 ==> '\n' !in s
  {
    if s != [] && s[0] != '\n' {
      LineLengthFindsNewline(s[1..]);
      var k := LineLength(s[1..]);
      assert s == [s[0]] + s[1..];
      if k > 0 {
        assert s[..k] == [s[0]] + s[1..][..k - 1];
      }
    }
  }

  /**
   * `read_line` on the bytes `pending` that the peer has sent and the handler
   * has not yet read: it reads up to and including the next '\n'. Without a
   * '\n', it returns what is left if the peer closed, and fails if the
   * connection broke (the incomplete line is then never delivered).
   */
  function ReadLine(pending: string, ending: Ending): (r: ReadResult)
    ensures r.Line? ==> |r.text| > 0 && r.text + r.rest == pending
  {
    var n := LineLength(pending);
    if n > 0 then
      assert pending[..n] + pending[n..] == pending;
      Line(pending[..n], pending[n..])
    else if pending == [] then
      if ending == Closed then EndOfInput else ReadError
    else if ending == Closed then
      assert pending + [] == pending;
      Line(pending, [])
    else
      ReadError
  }

  /**
   * What `read_line` delivers: a chunk with no '\n' before its end, which
   * ends in '\n' unless it is the last chunk of a closed stream; 0 bytes
   * exactly at the end of a closed stream; and an error exactly when a
   * broken stream has no complete line left.
   */
  lemma ReadLineDelivers(pending: string, ending: Ending)
    ensures var r := ReadLine(pending, ending);
      && (r.Line? ==> '\n' !in r.text[..|r.text| - 1])
      && (r.Line? && r.text[|r.text| - 1] != '\n' ==> ending == Closed && r.rest == [])
      && (r.EndOfInput? <==> pending == [] && ending == Closed)
      && (r.ReadError? <==> ending == Broken && '\n' !in pending)
  {
    LineLengthFindsNewline(pending);
    var n := LineLength(pending);
    if n == 0 && pending != [] {
      assert pending[..|pending|] == pending;
    }
  }

  /** The successive chunks that `read_line` delivers before the stream ends. */
  function Lines(data: string, ending: Ending): (ls: seq<string>)
    ensures forall i :: 0 <= i < |ls| ==> |ls[i]| > 0
    decreases |data|
  {
    match ReadLine(data, ending)
    case Line(text, rest) => [text] + Lines(rest, ending)
    case _ => []
  }

  function Concat(ls: seq<string>): string {
    if ls == [] then [] else ls[0] + Concat(ls[1..])
  }

  /** A peer that closes its side has every byte it sent delivered, in order. */
  lemma {:induction false} LinesClosedRoundTrip(data: string)
    ensures Concat(Lines(data, Closed)) == data
    decreases |data|
  {
    match ReadLine(data, Closed)
    case Line(text, rest) =>
      var ls := Lines(data, Closed);
      assert ls == [text] + Lines(rest, Closed);
      assert ls[1..] == Lines(rest, Closed);
      LinesClosedRoundTrip(rest);
    case EndOfInput =>
    case ReadError =>
  }

  lemma ConcatCons(text: string, ls: seq<string>)
    ensures Concat([text] + ls) == text + Concat(ls)
  {
    assert ([text] + ls)[1..] == ls;
  }

  /** A broken stream with no complete line left delivers nothing more, and what is left holds no '\n'. */
  lemma BrokenWithoutLine(data: string)
    requires !ReadLine(data, Broken).Line?
    ensures Lines(data, Broken) == [] && '\n' !in data
  {
    ReadLineDelivers(data, Broken);
  }

  /**
   * A connection that breaks has every complete line delivered, in order, and
   * loses only the unterminated tail.
   */
  lemma {:induction false} LinesBrokenPrefix(data: string)
    ensures var delivered := Concat(Lines(data, Broken));
      delivered <= data && '\n' !in data[|delivered|..]
    decreases |data|
  {
    var c := Concat(Lines(data, Broken));
    if ReadLine(data, Broken).Line? {
      var text, rest := ReadLine(data, Broken).text, ReadLine(data, Broken).rest;
      var c' := Concat(Lines(rest, Broken));
      assert c == text + c' by {
        assert Lines(data, Broken) == [text] + Lines(rest, Broken);
        ConcatCons(text, Lines(rest, Broken));
      }
      LinesBrokenPrefix(rest);
      assert c <= data && data[|c|..] == rest[|c'|..] by {
        assert data == text + rest;
      }
    } else {
      BrokenWithoutLine(data);
      assert data[|c|..] == data;
    }
  }

  lemma {:induction false} LineLengthOfLine(l: string)
    requires '\n' !in l
    ensures LineLength(l + "\n") == |l| + 1
  {
    if l != [] {
      assert l[0] in l;
      assert (l + "\n")[1..] == l[1..] + "\n";
      assert forall c :: c in l[1..] ==> c in l;
      LineLengthOfLine(l[1..]);
    }
  }

  /** A peer that sends one command line and nothing more. */
  lemma OneLine(l: string, ending: Ending)
    requires '\n' !in l
    ensures ReadLine(l + "\n", ending) == Line(l + "\n", [])
    ensures Lines(l + "\n", ending) == [l + "\n"]
  {
    var s := l + "\n";
    LineLengthOfLine(l);
    assert s[..|s|] == s && s[|s|..] == [];
    assert ReadLine(s, ending) == Line(s, []);
    assert ReadLine([], ending) != Line([], []);
  }
}
