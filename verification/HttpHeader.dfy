/**
 The login gate's header peek (internal/server/forward_auth.go) and its replay by the
 TCP relay (internal/portfwd/portfwd.go). The connection hands out its bytes in chunks
 of any size and may fail at any read; bytes are characters. Header framing is that of
 section 2.1 of RFC 9112, a bare LF being accepted as its section 2.2 allows.
 */
module HttpHeader {
  import opened Text

  const PEEK_LIMIT := 16384
  const BUFFER_SIZE := 4096

  // ----- what a byte stream says -----

  /** Nothing is left of the line once trailing CRs and LFs are trimmed. */
  predicate Blank(line: string) {
    forall i :: 0 <= i < |line| ==> line[i] == '\r' || line[i] == '\n'
  }

  /** The position just after the first blank line of s. */
  function HeaderEnd(s: string): (n: Option<nat>)
    ensures n.Some? ==> 0 < n.value <= |s|
    decreases |s|
  {
    var i := IndexOf(s, '\n');
    if i == |s| then None
    else if Blank(s[..i + 1]) then Some(i + 1)
    else
      match HeaderEnd(s[i + 1..])
      case None => None
      case Some(n) => Some(i + 1 + n)
  }

  const METHODS: seq<string> := ["GET", "POST", "PUT", "PATCH", "DELETE", "HEAD", "OPTIONS", "CONNECT", "TRACE"]

  predicate LooksLikeHTTP(b: string) {
    exists i :: 0 <= i < |METHODS| && HasPrefix(b, METHODS[i])
  }

  function FirstBytes(s: string, n: nat): (r: string)
    ensures r <= s && |r| <= n && (|r| < n ==> r == s)
  {
    if |s| <= n then s else s[..n]
  }

  /** What readHTTPHeader looks for in the client's stream. */
  predicate HasHeader(s: string) {
    LooksLikeHTTP(FirstBytes(s, 8)) && HeaderEnd(s).Some? && HeaderEnd(s).value <= PEEK_LIMIT
  }

  lemma PrefixLonger(a: string, b: string, p: string)
    requires HasPrefix(a, p) && a <= b
    ensures HasPrefix(b, p)
  {
    assert b[..|p|] == a[..|p|];
  }

  lemma LongerStillLooksLikeHTTP(a: string, b: string)
    requires LooksLikeHTTP(a) && a <= b
    ensures LooksLikeHTTP(b)
  {
    hide HasPrefix;
    var i :| 0 <= i < |METHODS| && HasPrefix(a, METHODS[i]);
    PrefixLonger(a, b, METHODS[i]);
    assert HasPrefix(b, METHODS[i]);
  }

  /** What starts with anything but a capital letter is turned away at its first byte, a TLS
      handshake for one; so is an SSH client. */
  lemma OtherProtocols(s: string)
    ensures s != "" && !('A' <= s[0] <= 'Z') ==> !LooksLikeHTTP(s)
    ensures HasPrefix(s, "SSH-") ==> !LooksLikeHTTP(s)
  {
    forall i | 0 <= i < |METHODS| && HasPrefix(s, METHODS[i])
      ensures s[0] == METHODS[i][0] && s[1] == METHODS[i][1] && 'A' <= s[0] <= 'Z' && METHODS[i][..2] != "SS"
    {
      assert s[..|METHODS[i]|][0] == METHODS[i][0] && s[..|METHODS[i]|][1] == METHODS[i][1];
    }
    if HasPrefix(s, "SSH-") {
      assert s[..4][0] == 'S' && s[..4][1] == 'S';
    }
  }

  /** Bytes a to b-1 of s are a line that holds nothing but CRs before its LF. */
  predicate BlankLine(s: string, a: int, b: int) {
    && 0 <= a < b <= |s| && (a == 0 || s[a - 1] == '\n') && s[b - 1] == '\n'
    && forall k :: a <= k < b - 1 ==> s[k] == '\r'
  }

  lemma FirstLineBlank(s: string, i: nat)
    requires i < |s| && i == IndexOf(s, '\n')
    ensures Blank(s[..i + 1]) <==> BlankLine(s, 0, i + 1)
  {
    if Blank(s[..i + 1]) {
      assert forall k :: 0 <= k < i ==> s[k] == s[..i + 1][k];
    }
  }

  lemma FirstLineOnly(s: string, i: nat, a: int, b: int)
    requires i < |s| && i == IndexOf(s, '\n') && BlankLine(s, a, b) && a <= i
    ensures a == 0 && b == i + 1
  {}

  lemma LaterLineBlank(s: string, i: nat, a: int, b: int)
    requires i < |s| && s[i] == '\n' && a > i
    ensures BlankLine(s, a, b) <==> BlankLine(s[i + 1..], a - i - 1, b - i - 1)
  {
    var rest := s[i + 1..];
    assert forall k :: 0 <= k < |rest| ==> rest[k] == s[k + i + 1];
    if BlankLine(rest, a - i - 1, b - i - 1) {
      assert forall k :: a <= k < b - 1 ==> s[k] == rest[k - i - 1];
    }
  }

  ghost predicate EndsBlank(s: string, n: int) {
    exists a :: BlankLine(s, a, n)
  }

  lemma LaterEndsBlank(s: string, i: nat, n: int)
    requires i < |s| && s[i] == '\n' && EndsBlank(s[i + 1..], n)
    ensures EndsBlank(s, i + 1 + n)
  {
    var a :| BlankLine(s[i + 1..], a, n);
    LaterLineBlank(s, i, a + i + 1, n + i + 1);
  }

  lemma Witness(s: string, a: int, b: int)
    requires BlankLine(s, a, b)
    ensures EndsBlank(s, b)
  {}

  /** The header block is framed as RFC 9112 has it: it ends with the first blank line. */
  lemma {:induction false} HeaderEndsBlank(s: string)
    ensures HeaderEnd(s).Some? ==> EndsBlank(s, HeaderEnd(s).value)
    decreases |s|
  {
    hide IndexOf, Blank, BlankLine, EndsBlank;
    var i := IndexOf(s, '\n');
    if i < |s| {
      FirstLineBlank(s, i);
      HeaderEndsBlank(s[i + 1..]);
      if HeaderEnd(s).Some? {
        if Blank(s[..i + 1]) {
          Witness(s, 0, i + 1);
        } else {
          LaterEndsBlank(s, i, HeaderEnd(s[i + 1..]).value);
        }
      }
    }
  }

  lemma BlankLineRange(s: string, a: int, b: int)
    requires BlankLine(s, a, b)
    ensures 0 <= a < b <= |s|
  {}

  lemma NoBlankLine(s: string)
    requires IndexOf(s, '\n') == |s|
    ensures forall a, b :: !BlankLine(s, a, b)
  {}

  lemma {:induction false} NoEarlierBlankLine(s: string, a: int, b: int)
    requires BlankLine(s, a, b)
    ensures HeaderEnd(s).Some? && HeaderEnd(s).value <= b
    decreases |s|
  {
    hide IndexOf, Blank, BlankLine;
    BlankLineRange(s, a, b);
    var i := IndexOf(s, '\n');
    if i == |s| {
      NoBlankLine(s);
    } else {
      FirstLineBlank(s, i);
      if a > i {
        LaterLineBlank(s, i, a, b);
        NoEarlierBlankLine(s[i + 1..], a - i - 1, b - i - 1);
      } else {
        FirstLineOnly(s, i, a, b);
      }
    }
  }

  /** A stream has a header block exactly when some line of it is blank, and the block
      then ends with the first such line. */
  lemma HeaderFraming(s: string)
    ensures HeaderEnd(s).Some? <==> exists a, b :: BlankLine(s, a, b)
    ensures HeaderEnd(s).Some? ==> EndsBlank(s, HeaderEnd(s).value)
    ensures forall a, b :: BlankLine(s, a, b) ==> HeaderEnd(s).Some? && HeaderEnd(s).value <= b
  {
    hide HeaderEnd;
    HeaderEndsBlank(s);
    forall a, b | BlankLine(s, a, b)
      ensures HeaderEnd(s).Some? && HeaderEnd(s).value <= b
    {
      NoEarlierBlankLine(s, a, b);
    }
  }

  // ----- the connection and its buffered reader -----

  /** One side's bytes still to be read, and how many reads have failed before their end. */
  class Connection {
    var unread: string
    ghost var failures: nat

    constructor (stream: string)
      ensures unread == stream && failures == 0
    {
      unread := stream;
      failures := 0;
    }

    /** One Read: a non-empty chunk of at most max bytes; or a failure, which is the end
        of the stream or, at any moment, a timeout or a broken connection. */
    method Read(max: nat) returns (chunk: string, failed: bool, timedOut: bool)
      requires max > 0
      modifies this
      ensures failed ==> chunk == "" && unread == old(unread) && (timedOut || unread == "")
      ensures !failed ==> 0 < |chunk| <= max && old(unread) == chunk + unread && !timedOut
      ensures failures == old(failures) + if timedOut then 1 else 0
    {
      if * {
        failures := failures + 1;
        return "", true, true;
      }
      if unread == "" {
        return "", true, false;
      }
      var n: nat :| 0 < n <= |unread| && n <= max;
      chunk := unread[..n];
      unread := unread[n..];
      return chunk, false, false;
    }
  }

  predicate OneLine(line: string) {
    line != "" && line[|line| - 1] == '\n' && forall j :: 0 <= j < |line| - 1 ==> line[j] != '\n'
  }

  class BufReader {
    const conn: Connection
    var buf: string

    constructor (conn: Connection)
      ensures this.conn == conn && buf == ""
    {
      this.conn := conn;
      buf := "";
    }

    /** The bytes not handed out yet: what is buffered, then what is on the connection. */
    ghost function Rest(): string
      reads this, conn
    {
      buf + conn.unread
    }

    ghost predicate Ready()
      reads this
    {
      |buf| <= BUFFER_SIZE
    }

    method Fill() returns (failed: bool, timedOut: bool)
      requires |buf| < BUFFER_SIZE
      modifies this, conn
      ensures Rest() == old(Rest())
      ensures failed ==> buf == old(buf) && conn.unread == old(conn.unread) && (timedOut || conn.unread == "")
      ensures !failed ==> !timedOut && |conn.unread| < old(|conn.unread|) && |buf| <= BUFFER_SIZE && |buf| > old(|buf|)
      ensures conn.failures == old(conn.failures) + if timedOut then 1 else 0
    {
      var chunk;
      chunk, failed, timedOut := conn.Read(BUFFER_SIZE - |buf|);
      ghost var before := Rest();
      buf := buf + chunk;
    }

    method Peek(n: nat) returns (prefix: string, timedOut: bool)
      requires n <= BUFFER_SIZE && |buf| <= BUFFER_SIZE
      modifies this, conn
      ensures Rest() == old(Rest()) && |buf| <= BUFFER_SIZE
      ensures prefix == FirstBytes(buf, n)
      ensures prefix <= FirstBytes(Rest(), n)
      ensures !timedOut ==> prefix == FirstBytes(Rest(), n)
      ensures conn.failures == old(conn.failures) + if timedOut then 1 else 0
    {
      timedOut := false;
      while |buf| < n
        invariant Rest() == old(Rest()) && |buf| <= BUFFER_SIZE && !timedOut && conn.failures == old(conn.failures)
        decreases |conn.unread|
      {
        var failed;
        failed, timedOut := Fill();
        if failed {
          break;
        }
      }
      prefix := FirstBytes(buf, n);
    }

    method TakeLine(start: string, i: nat) returns (line: string)
      requires i < |buf| && buf[i] == '\n' && '\n' !in start && forall j :: 0 <= j < i ==> buf[j] != '\n'
      modifies this
      ensures OneLine(line) && line + Rest() == start + old(Rest()) && |buf| <= old(|buf|)
    {
      line := start + buf[..i + 1];
      buf := buf[i + 1..];
      assert forall j :: 0 <= j < |line| - 1 ==> line[j] == if j < |start| then start[j] else old(buf)[j - |start|];
    }

    method TakeAll(line: string) returns (longer: string)
      modifies this
      ensures buf == "" && longer == line + old(buf) && longer + Rest() == line + old(Rest())
    {
      longer := line + buf;
      buf := "";
    }

    /** ReadBytes('\n'): the bytes up to and including the first LF. On failure everything
        that arrived has been consumed. */
    method ReadLine() returns (line: string, failed: bool, timedOut: bool)
      requires |buf| <= BUFFER_SIZE
      modifies this, conn
      ensures |buf| <= BUFFER_SIZE
      ensures old(Rest()) == line + Rest()
      ensures !failed ==> OneLine(line)
      ensures failed ==> '\n' !in line
      ensures failed && !timedOut ==> Rest() == ""
      ensures conn.failures == old(conn.failures) + if timedOut then 1 else 0
    {
      hide IndexOf;
      ghost var stream := Rest();
      line := "";
      timedOut := false;
      while true
        invariant line + Rest() == stream && '\n' !in line && |buf| <= BUFFER_SIZE && conn.failures == old(conn.failures)
        decreases |conn.unread|
      {
        var i := IndexOf(buf, '\n');
        if i < |buf| {
          line := TakeLine(line, i);
          return line, false, false;
        }
        if |buf| == BUFFER_SIZE {
          line := TakeAll(line);
        }
        failed, timedOut := Fill();
        if failed {
          line := TakeAll(line);
          return line, true, timedOut;
        }
      }
    }
  }

  // ----- reading the header -----

  /** Reading the stream line by line: a blank first line ends the header, any other first
      line moves the search behind it, and a stream without LF has no header. */
  lemma HeaderEndByLine(line: string, rest: string)
    requires OneLine(line)
    ensures HeaderEnd(line + rest) ==
            if Blank(line) then Some(|line|)
            else match HeaderEnd(rest) case None => None case Some(n) => Some(|line| + n)
  {
    hide Blank;
    var s := line + rest;
    assert IndexOf(s, '\n') == |line| - 1 by {
      assert s[|line| - 1] == '\n';
      assert forall j :: 0 <= j < |line| - 1 ==> s[j] == line[j];
    }
    assert s[..|line|] == line && s[|line|..] == rest;
  }

  lemma HeaderEndNoLine(s: string)
    requires '\n' !in s
    ensures HeaderEnd(s) == None
  {}

  /** Where the header of the whole stream ends, once done of it has been read and no
      header has ended there. */
  predicate Searching(stream: string, done: string, rest: string) {
    && stream == done + rest
    && HeaderEnd(stream) == match HeaderEnd(rest) case None => None case Some(n) => Some(|done| + n)
  }

  lemma SearchStarts(stream: string)
    ensures Searching(stream, "", stream)
  {
    assert "" + stream == stream;
  }

  lemma SearchOn(stream: string, done: string, line: string, rest: string)
    requires Searching(stream, done, line + rest) && OneLine(line)
    ensures !Blank(line) ==> Searching(stream, done + line, rest)
  {
    hide HeaderEnd, Blank;
    HeaderEndByLine(line, rest);
    assert done + (line + rest) == (done + line) + rest;
  }

  lemma SearchFound(stream: string, done: string, line: string, rest: string)
    requires Searching(stream, done, line + rest) && OneLine(line) && Blank(line) && |done| + |line| <= PEEK_LIMIT
    requires LooksLikeHTTP(FirstBytes(stream, 8))
    ensures HasHeader(stream) && HeaderEnd(stream).value == |done| + |line| && stream == done + line + rest
  {
    hide HeaderEnd, Blank, LooksLikeHTTP;
    HeaderEndByLine(line, rest);
  }

  lemma SearchEnds(stream: string, done: string, rest: string)
    requires Searching(stream, done, rest) && '\n' !in rest
    ensures !HasHeader(stream)
  {
    HeaderEndNoLine(rest);
  }

  lemma SearchTooFar(stream: string, done: string, line: string, rest: string)
    requires Searching(stream, done, line + rest) && OneLine(line) && |done| + |line| > PEEK_LIMIT
    ensures !HasHeader(stream)
  {
    hide HeaderEnd, Blank, LooksLikeHTTP;
    HeaderEndByLine(line, rest);
  }

  predicate OnOneLine(s: string, a: int, b: int) {
    0 <= a <= b <= |s| && forall k :: a <= k < b ==> s[k] != '\n'
  }

  /** No stretch of s without LF is longer than n. */
  ghost predicate LinesWithin(s: string, n: nat) {
    forall a, b :: OnOneLine(s, a, b) ==> b - a <= n
  }

  lemma LineWithin(stream: string, done: string, line: string, rest: string, n: nat)
    requires stream == done + line + rest && (OneLine(line) || '\n' !in line) && LinesWithin(stream, n)
    ensures |line| <= n + 1
  {
    var end := |done| + |line| - if OneLine(line) then 1 else 0;
    assert forall k :: |done| <= k < |done| + |line| ==> stream[k] == line[k - |done|] && line[k - |done|] in line;
    assert OnOneLine(stream, |done|, end);
  }

  lemma LineHasLF(stream: string, done: string, line: string, rest: string)
    requires stream == done + line + rest && OneLine(line)
    ensures '\n' in stream
  {
    assert stream[|done| + |line| - 1] == line[|line| - 1];
  }

  ghost predicate TakenBound(stream: string, unread: string) {
    forall n: nat :: LinesWithin(stream, n) ==> |stream| - |unread| <= PEEK_LIMIT + n + 1 + BUFFER_SIZE
  }

  /** Having read done and then a line, with the rest partly buffered, the reader has taken no
      more off the connection than the limit, one line and one buffer. */
  lemma TakenWithin(stream: string, done: string, line: string, buffered: string, unread: string)
    requires stream == done + line + (buffered + unread) && (OneLine(line) || '\n' !in line)
    requires |done| <= PEEK_LIMIT && |buffered| <= BUFFER_SIZE
    ensures TakenBound(stream, unread)
  {
    forall n: nat | LinesWithin(stream, n) ensures |stream| - |unread| <= PEEK_LIMIT + n + 1 + BUFFER_SIZE {
      LineWithin(stream, done, line, buffered + unread, n);
    }
  }

  lemma NotHTTP(stream: string)
    ensures !LooksLikeHTTP(FirstBytes(stream, 8)) ==> !HasHeader(stream)
  {}

  lemma NotEmpty(line: string)
    requires OneLine(line)
    ensures line != ""
  {}

  /** The next line of the header search, what it leaves to search, and what it has cost. */
  method NextLine(br: BufReader, ghost stream: string, out: string) returns (line: string, failed: bool, slow: bool)
    requires br.Ready() && stream == out + br.Rest() && Searching(stream, out, br.Rest()) && |out| <= PEEK_LIMIT
    modifies br, br.conn
    ensures br.Ready() && stream == out + line + br.Rest() && TakenBound(stream, br.conn.unread)
    ensures failed && !slow ==> !HasHeader(stream) && br.conn.unread == ""
    ensures !failed ==> OneLine(line) && line != "" && '\n' in stream && Searching(stream, out, line + br.Rest())
    ensures br.conn.failures == old(br.conn.failures) + if slow then 1 else 0
  {
    hide LooksLikeHTTP, HeaderEnd, Blank, HasHeader, Searching, OneLine, TakenBound;
    line, failed, slow := br.ReadLine();
    assert stream == out + line + (br.buf + br.conn.unread);
    TakenWithin(stream, out, line, br.buf, br.conn.unread);
    if !failed {
      NotEmpty(line);
      LineHasLF(stream, out, line, br.Rest());
    } else if !slow {
      assert line + br.Rest() == line;
      SearchEnds(stream, out, line);
    }
  }

  /** readHTTPHeader. On success the returned bytes, followed by what is still unread on
      the connection, are the client's stream, and they contain its whole header block.
      Unless a read timed out, success depends on the stream alone and not on how the
      connection cut it into reads.

      The limit is tested after a line has been read. What is taken off the connection is
      therefore bounded by the limit, one buffer and the longest line of the stream; a stream
      that starts like a request and has no LF is taken to its end, however long. */
  method ReadHTTPHeader(conn: Connection) returns (out: string, ok: bool, timedOut: bool)
    modifies conn
    ensures ok ==> old(conn.unread) == out + conn.unread
    ensures ok ==> HasHeader(old(conn.unread)) && HeaderEnd(old(conn.unread)).value <= |out|
    ensures !ok && !timedOut ==> !HasHeader(old(conn.unread))
    ensures timedOut <==> conn.failures > old(conn.failures)
    ensures conn.failures >= old(conn.failures)
    ensures TakenBound(old(conn.unread), conn.unread)
    ensures LooksLikeHTTP(FirstBytes(old(conn.unread), 8)) && '\n' !in old(conn.unread) && !timedOut ==> conn.unread == ""
  {
    hide LooksLikeHTTP, HeaderEnd, Blank, HasHeader, Searching, OneLine, TakenBound;
    ghost var stream := conn.unread;
    var br := new BufReader(conn);
    assert br.Rest() == stream;
    var prefix, slow := br.Peek(8);
    timedOut := slow;
    SearchStarts(stream);
    TakenWithin(stream, "", "", br.buf, conn.unread);
    if !LooksLikeHTTP(prefix) {
      NotHTTP(stream);
      return "", false, timedOut;
    }
    LongerStillLooksLikeHTTP(prefix, FirstBytes(stream, 8));
    out := "";
    while true
      invariant fresh(br) && br.conn == conn && br.Ready() && |out| <= PEEK_LIMIT
      invariant conn.failures >= old(conn.failures) && (timedOut <==> conn.failures > old(conn.failures))
      invariant stream == out + br.Rest() && Searching(stream, out, br.Rest())
      decreases |br.Rest()|
    {
      var line, failed;
      line, failed, slow := NextLine(br, stream, out);
      timedOut := timedOut || slow;
      if failed {
        return "", false, timedOut;
      }
      if |out + line| > PEEK_LIMIT {
        SearchTooFar(stream, out, line, br.Rest());
        return "", false, timedOut;
      }
      if Blank(line) {
        SearchFound(stream, out, line, br.Rest());
        out := out + line;
        break;
      }
      SearchOn(stream, out, line, br.Rest());
      out := out + line;
    }
    ghost var header := out;
    out := out + br.buf;
    ok := true;
    assert header + (br.buf + conn.unread) == out + conn.unread;
  }

  // ----- the gate and the relay -----

  /** The part of checkForwardAuth that touches the connection: nothing is read when the
      gate is switched off; authorised is what the cookie check then says. */
  method CheckForwardAuth(conn: Connection, enabled: bool, authorised: bool) returns (peeked: string, allow: bool)
    modifies conn
    ensures allow ==> peeked + conn.unread == old(conn.unread)
    ensures allow && enabled ==> authorised && HasHeader(old(conn.unread))
    ensures !allow ==> peeked == ""
    ensures !enabled ==> allow && peeked == "" && conn.unread == old(conn.unread) && conn.failures == old(conn.failures)
    ensures conn.failures >= old(conn.failures)
    ensures enabled && conn.failures == old(conn.failures) ==> (allow <==> authorised && HasHeader(old(conn.unread)))
  {
    hide HasHeader;
    if !enabled {
      return "", true;
    }
    var header, ok, timedOut := ReadHTTPHeader(conn);
    if !ok || !authorised {
      return "", false;
    }
    return header, true;
  }

  /** The sending side of a connection: what the peer has been sent, in order, and how many
      writes have failed. */
  class Sink {
    var received: string
    ghost var failures: nat

    constructor ()
      ensures received == "" && failures == 0
    {
      received := "";
      failures := 0;
    }

    /** One Write: all of the chunk, or a part of it and a failure. */
    method Write(chunk: string) returns (failed: bool)
      modifies this
      ensures old(received) <= received <= old(received) + chunk
      ensures !failed ==> received == old(received) + chunk
      ensures failures == old(failures) + if failed then 1 else 0
    {
      if * {
        received := received + chunk;
        return false;
      }
      failures := failures + 1;
      var n: nat :| n <= |chunk|;
      received := received + chunk[..n];
      return true;
    }
  }

  lemma PrefixOfStream(start: string, taken: string, chunk: string, unread: string, received: string)
    requires start + taken <= received <= start + taken + chunk
    ensures start <= received <= start + (taken + (chunk + unread))
  {
    var all := start + (taken + (chunk + unread));
    assert all[..|start + taken + chunk|] == start + taken + chunk;
    assert received == (start + taken + chunk)[..|received|];
    assert (start + taken)[..|start|] == start;
  }

  /** io.Copy: until the stream ends, a read fails or a write fails. */
  method Copy(src: Connection, dst: Sink) returns (whole: bool)
    modifies src, dst
    ensures old(dst.received) <= dst.received <= old(dst.received) + old(src.unread)
    ensures whole ==> dst.received == old(dst.received) + old(src.unread) && src.unread == ""
    ensures whole <==> src.failures == old(src.failures) && dst.failures == old(dst.failures)
    ensures src.failures >= old(src.failures) && dst.failures >= old(dst.failures)
  {
    ghost var stream, start := src.unread, dst.received;
    ghost var taken := "";
    while true
      invariant stream == taken + src.unread && dst.received == start + taken
      invariant src.failures == old(src.failures) && dst.failures == old(dst.failures)
      decreases |src.unread|
    {
      var chunk, failed, timedOut := src.Read(BUFFER_SIZE);
      if failed {
        return !timedOut;
      }
      var broken := dst.Write(chunk);
      PrefixOfStream(start, taken, chunk, src.unread, dst.received);
      if broken {
        return false;
      }
      taken := taken + chunk;
    }
  }

  /** relayTCP: gate, dial, replay, then both copies, which share nothing and are run here in
      either order. Whatever fails when, the container has been sent a beginning of the
      client's stream, peeked bytes included, and the client one of the container's. Where
      nothing fails, who is admitted depends on the stream and the cookie alone, and each side
      gets the whole of the other's stream; the container's answers get through whole even if
      reading from the client fails. A refused client reaches nothing. */
  method RelayTCP(client: Connection, toClient: Sink, target: Connection, toTarget: Sink,
                  gated: bool, enabled: bool, authorised: bool, dialOk: bool)
    returns (allowed: bool, up: bool, down: bool)
    requires client != target && toClient != toTarget && toTarget.received == "" && toClient.received == ""
    modifies client, toClient, target, toTarget
    ensures toTarget.received <= old(client.unread) && toClient.received <= old(target.unread)
    ensures up ==> toTarget.received == old(client.unread)
    ensures down ==> toClient.received == old(target.unread)
    ensures !(allowed && dialOk) ==> toTarget.received == "" && target.unread == old(target.unread) && !up && !down
    ensures allowed && gated && enabled ==> authorised && HasHeader(old(client.unread))
    ensures !gated ==> allowed
    ensures client.failures == old(client.failures) ==>
              (allowed <==> !gated || !enabled || (authorised && HasHeader(old(client.unread))))
    ensures allowed && dialOk && client.failures == old(client.failures) && toTarget.failures == old(toTarget.failures) ==>
              up && toTarget.received == old(client.unread) && client.unread == ""
    ensures allowed && dialOk && toTarget.failures == old(toTarget.failures) ==>
              (down <==> target.failures == old(target.failures) && toClient.failures == old(toClient.failures))
    ensures down ==> target.unread == ""
  {
    hide HasHeader;
    ghost var stream := client.unread;
    var peeked := "";
    allowed, up, down := true, false, false;
    if gated {
      peeked, allowed := CheckForwardAuth(client, enabled, authorised);
    }
    if !allowed || !dialOk {
      return;
    }
    if |peeked| > 0 {
      var failed := toTarget.Write(peeked);
      assert "" + peeked == peeked && peeked <= stream;
      if failed {
        return;
      }
    }
    if * {
      up := Copy(client, toTarget);
      down := Copy(target, toClient);
    } else {
      down := Copy(target, toClient);
      up := Copy(client, toTarget);
    }
  }
}
