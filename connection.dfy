/** client_thread: the per-connection receive loop, its line buffer and the C string
    routines it applies to that buffer in place. */
module Connection {
  import opened Wire
  import opened Handlers
  import opened Server

  /** BUF_SIZE: the size of linebuf. */
  const BUF_SIZE: nat := 4096

  /** strlen on a buffer holding a NUL. */
  method Strlen(s: array<char>) returns (n: nat)
    requires '\0' in s[..]
    ensures n < s.Length && s[n] == '\0' && s[..n] == CPrefix(s[..])
  {
    n := 0;
    while s[n] != '\0'
      invariant n < s.Length && '\0' !in s[..n] && '\0' in s[n..]
      decreases s.Length - n
    {
      assert s[n..] == [s[n]] + s[n + 1..];
      assert s[..n + 1] == s[..n] + [s[n]];
      n := n + 1;
    }
    CPrefixAt(s[..], n);
  }

  /** trim_crlf: overwrite the trailing CR and LF characters of the C string with NULs. */
  method TrimCrlf(s: array<char>)
    requires '\0' in s[..]
    modifies s
    ensures '\0' in s[..] && CPrefix(s[..]) == TrimmedCrlf(CPrefix(old(s[..])))
  {
    var n := Strlen(s);
    ghost var p := s[..n];
    while n > 0 && IsCrLf(s[n - 1])
      invariant n <= |p| && n < s.Length && s[n] == '\0' && s[..n] == p[..n]
      invariant TrimmedCrlf(p) == TrimmedCrlf(p[..n])
    {
      assert p[..n][..n - 1] == p[..n - 1];
      s[n - 1] := '\0';
      n := n - 1;
    }
    assert '\0' !in s[..n] by {
      assert s[..n] == p[..n] && p[..n] <= p;
    }
    CPrefixAt(s[..], n);
  }

  /** linebuf and linepos of client_thread. */
  class LineFramer {
    const linebuf: array<char>
    var linepos: nat

    ghost predicate Valid()
      reads this
    {
      linebuf.Length == BUF_SIZE && linepos <= LINE_LIMIT
    }

    /** The partial line received since the last CR LF. */
    function Partial(): string
      reads this, linebuf
      requires Valid()
    {
      linebuf[..linepos]
    }

    constructor ()
      ensures Valid() && Partial() == [] && fresh(linebuf)
    {
      linebuf := new char[BUF_SIZE](_ => '\0');
      linepos := 0;
    }

    /** One received character: what the inner loop of client_thread does with buf[i].
        A completed nonempty line is returned for handle_line. */
    method Receive(c: char) returns (line: Option<string>)
      requires Valid()
      modifies this`linepos, linebuf
      ensures Valid()
      ensures Advance(Framing(old(Partial()), []), c) == Framing(Partial(), if line.Some? then [line.value] else [])
    {
      ghost var b0 := Partial();
      if linepos < LINE_LIMIT {
        linebuf[linepos] := c;
        linepos := linepos + 1;
      }
      ghost var b := Partial();
      assert b == if |b0| < LINE_LIMIT then b0 + [c] else b0;
      line := None;
      if linepos >= 2 && linebuf[linepos - 2] == '\r' && linebuf[linepos - 1] == '\n' {
        assert EndsWithCrLf(b);
        ghost var trimmed := TrimmedCrlf(CPrefix(b));
        linebuf[linepos] := '\0';
        CPrefixTerminated(linebuf[..], b);
        TrimCrlf(linebuf);
        var n := Strlen(linebuf);
        assert linebuf[..n] == trimmed;
        if n > 0 {
          line := Some(linebuf[..n]);
        }
        linepos := 0;
        AdvanceEnd(b0, c);
      } else {
        assert !EndsWithCrLf(b);
        AdvanceEnd(b0, c);
      }
    }
  }

  lemma SliceSnoc(prefix: string, chunk: string, j: nat)
    requires j < |chunk|
    ensures prefix + chunk[..j] + [chunk[j]] == prefix + chunk[..j + 1]
  {
    assert chunk[..j + 1] == chunk[..j] + [chunk[j]];
  }

  lemma FlattenSnoc(chunks: seq<string>, i: nat)
    requires i < |chunks|
    ensures Flatten(chunks[..i]) + chunks[i] == Flatten(chunks[..i + 1])
  {
    assert chunks[..i + 1][..i] == chunks[..i];
  }

  lemma SliceAll<T>(s: seq<T>)
    ensures s[..|s|] == s
  {
  }

  /** The framer's step, stated against Frame over everything received so far. */
  method FrameChar(framer: LineFramer, c: char, ghost data: string) returns (line: Option<string>)
    requires framer.Valid() && framer.Partial() == Frame([], data).buf
    modifies framer`linepos, framer.linebuf
    ensures framer.Valid() && framer.Partial() == Frame([], data + [c]).buf
    ensures Frame([], data + [c]).lines == Frame([], data).lines + if line.Some? then [line.value] else []
  {
    ghost var f := Frame([], data);
    FrameSnocStep([], data, c);
    line := framer.Receive(c);
    AdvanceShift(f, Framing(f.buf, []), f.lines, c);
    assert f.lines + [] == f.lines;
  }

  /** One more line handled at the end of a session. */
  lemma RunLinesSnoc(l: Lobby, s: Session, lines: seq<string>, x: string, env: nat -> Env)
    ensures var r := RunLines(l, s, lines, env);
      var t := HandleLine(r.lobby, r.session, x, env(|lines|));
      RunLines(l, s, lines + [x], env) == Step(t.lobby, t.session, r.out + t.out)
  {
    assert (lines + [x])[..|lines|] == lines;
  }

  /** One received character: the framer takes it and a completed line goes to handle_line.
      `data` is everything received before it on this connection. */
  method ReceiveChar(co: Coordinator, st: Client, framer: LineFramer, c: char, env: nat -> Env,
                     ghost l0: Lobby, ghost s0: Session, ghost data: string, handled: nat, out0: seq<Send>)
    returns (handled': nat, out: seq<Send>)
    requires co.Valid() && framer.Valid()
    requires framer.Partial() == Frame([], data).buf && handled == |Frame([], data).lines|
    requires Step(co.View(), st.View(), out0) == RunLines(l0, s0, Frame([], data).lines, env)
    modifies co`onlineCount, co.online, co`pendingCount, co.pending, co`recentCount, co.recent, co`users
    modifies st`loggedIn, st`username, st`inMatch, framer`linepos, framer.linebuf
    ensures co.Valid() && framer.Valid()
    ensures framer.Partial() == Frame([], data + [c]).buf && handled' == |Frame([], data + [c]).lines|
    ensures Step(co.View(), st.View(), out) == RunLines(l0, s0, Frame([], data + [c]).lines, env)
  {
    var line := FrameChar(framer, c, data);
    handled', out := handled, out0;
    if line.Some? {
      RunLinesSnoc(l0, s0, Frame([], data).lines, line.value, env);
      var o := co.HandleLine(st, line.value, env(handled));
      out := out0 + o;
      handled' := handled + 1;
    }
  }

  /** One recv chunk, character by character. */
  method ReceiveChunk(co: Coordinator, st: Client, framer: LineFramer, chunk: string, env: nat -> Env,
                      ghost l0: Lobby, ghost s0: Session, ghost data: string, handled: nat, out0: seq<Send>)
    returns (handled': nat, out: seq<Send>)
    requires co.Valid() && framer.Valid()
    requires framer.Partial() == Frame([], data).buf && handled == |Frame([], data).lines|
    requires Step(co.View(), st.View(), out0) == RunLines(l0, s0, Frame([], data).lines, env)
    modifies co`onlineCount, co.online, co`pendingCount, co.pending, co`recentCount, co.recent, co`users
    modifies st`loggedIn, st`username, st`inMatch, framer`linepos, framer.linebuf
    ensures co.Valid() && framer.Valid()
    ensures framer.Partial() == Frame([], data + chunk).buf && handled' == |Frame([], data + chunk).lines|
    ensures Step(co.View(), st.View(), out) == RunLines(l0, s0, Frame([], data + chunk).lines, env)
  {
    ghost var d := data;
    handled', out := handled, out0;
    for j := 0 to |chunk|
      invariant co.Valid() && framer.Valid()
      invariant d == data + chunk[..j]
      invariant framer.Partial() == Frame([], d).buf && handled' == |Frame([], d).lines|
      invariant Step(co.View(), st.View(), out) == RunLines(l0, s0, Frame([], d).lines, env)
    {
      handled', out := ReceiveChar(co, st, framer, chunk[j], env, l0, s0, d, handled', out);
      d := d + [chunk[j]];
      SliceSnoc(data, chunk, j);
    }
    SliceAll(chunk);
  }

  /** client_thread for one connection on socket `sock`: `chunks` are the successive
      results of recv until it reports the end, and env(k) is the world handle_line sees
      for the k-th dispatched line. When the connection ends, a logged-in user is removed. */
  method ClientThread(co: Coordinator, sock: int, chunks: seq<string>, env: nat -> Env) returns (out: seq<Send>)
    requires co.Valid()
    modifies co`onlineCount, co.online, co`pendingCount, co.pending, co`recentCount, co.recent, co`users
    ensures co.Valid()
    ensures var r := RunLines(old(co.View()), Session(sock, false, "", false), Frame([], Flatten(chunks)).lines, env);
      out == r.out && co.View() == Handlers.Disconnect(r.lobby, r.session)
  {
    var st := new Client(sock);
    var framer := new LineFramer();
    ghost var l0 := co.View();
    ghost var s0 := st.View();
    ghost var data: string := [];
    var handled: nat := 0;
    out := [];
    for i := 0 to |chunks|
      invariant co.Valid() && framer.Valid() && fresh(st) && fresh(framer) && fresh(framer.linebuf)
      invariant data == Flatten(chunks[..i])
      invariant framer.Partial() == Frame([], data).buf && handled == |Frame([], data).lines|
      invariant Step(co.View(), st.View(), out) == RunLines(l0, s0, Frame([], data).lines, env)
    {
      handled, out := ReceiveChunk(co, st, framer, chunks[i], env, l0, s0, data, handled, out);
      data := data + chunks[i];
      FlattenSnoc(chunks, i);
    }
    SliceAll(chunks);
    co.Disconnect(st);
  }
}
