/** The command framing of src/net_tcp.c: tcp_parse, the read loop around it and the writers. */
module Tcp {
  import opened Bytes

  const MAX_BUF := 100
  const LF: byte := 10
  const CR: byte := 13
  const TEXT: byte := 67
  const BINARY: byte := 66
  const LISTEN: byte := 76
  const TEXT_UNSOLICITED: byte := 99
  const BINARY_UNSOLICITED: byte := 98

  predicate IsNewline(b: byte) {
    b == LF || b == CR
  }

  // ----- The automaton -----

  /** States 0..4 of tcp_parse. */
  datatype Mode = Idle | Text | Header | Binary | Skip

  /** `cmd` is the first cmdlen bytes of nb->cmd, `left` is cmdbinlen. */
  datatype Parser = Parser(mode: Mode, cmd: seq<byte>, left: int)

  /** What the parser calls out to: nb->callback with the command, or listen_register. */
  datatype Event = Command(data: seq<byte>) | Listen

  function ParseStep(p: Parser, b: byte): (Parser, seq<Event>) {
    match p.mode
    case Idle =>
      if b == TEXT then (p.(mode := Text, cmd := []), [])
      else if b == BINARY then (Parser(Header, [], 0), [])
      else if b == LISTEN then (p, [Listen])
      else (p, [])
    case Text =>
      if IsNewline(b) then (p.(mode := Idle), [Command(p.cmd)])
      else (p.(mode := if |p.cmd| + 1 == MAX_BUF then Skip else Text, cmd := p.cmd + [b]), [])
    case Header =>
      if b <= MAX_BUF then (p.(mode := Binary, left := b), []) else (p.(mode := Idle), [])
    case Binary =>
      if p.left - 1 == 0 then (Parser(Idle, p.cmd + [b], 0), [Command(p.cmd + [b])])
      else (p.(cmd := p.cmd + [b], left := p.left - 1), [])
    case Skip =>
      (if IsNewline(b) then p.(mode := Idle) else p, [])
  }

  function Feed(p: Parser, s: seq<byte>): (Parser, seq<Event>)
    decreases |s|
  {
    if s == [] then (p, [])
    else
      var (p1, now) := ParseStep(p, s[0]);
      var (p2, later) := Feed(p1, s[1..]);
      (p2, now + later)
  }

  const START := Parser(Idle, [], 0)

  lemma {:induction false} FeedConcat(p: Parser, a: seq<byte>, b: seq<byte>)
    ensures Feed(p, a + b).0 == Feed(Feed(p, a).0, b).0
    ensures Feed(p, a + b).1 == Feed(p, a).1 + Feed(Feed(p, a).0, b).1
    decreases |a|
  {
    if a == [] {
      assert a + b == b;
    } else {
      assert (a + b)[1..] == a[1..] + b;
      FeedConcat(ParseStep(p, a[0]).0, a[1..], b);
      var (p1, now) := ParseStep(p, a[0]);
      assert (now + Feed(p1, a[1..]).1) + Feed(Feed(p, a).0, b).1 ==
             now + (Feed(p1, a[1..]).1 + Feed(Feed(p, a).0, b).1);
    }
  }

  // ----- Reads of any size -----

  function Flatten(chunks: seq<seq<byte>>): seq<byte> {
    if chunks == [] then [] else chunks[0] + Flatten(chunks[1..])
  }

  function FeedChunks(p: Parser, chunks: seq<seq<byte>>): (Parser, seq<Event>)
    decreases |chunks|
  {
    if chunks == [] then (p, [])
    else
      var (p1, now) := Feed(p, chunks[0]);
      var (p2, later) := FeedChunks(p1, chunks[1..]);
      (p2, now + later)
  }

  lemma {:induction false} ChunkingIsInvisible(p: Parser, chunks: seq<seq<byte>>)
    ensures FeedChunks(p, chunks).0 == Feed(p, Flatten(chunks)).0
    ensures FeedChunks(p, chunks).1 == Feed(p, Flatten(chunks)).1
    decreases |chunks|
  {
    if chunks != [] {
      FeedConcat(p, chunks[0], Flatten(chunks[1..]));
      ChunkingIsInvisible(Feed(p, chunks[0]).0, chunks[1..]);
    }
  }

  // ----- Reference: the stream read frame by frame -----

  /** Index of the first newline, or the length if there is none. */
  function LineEnd(s: seq<byte>): nat {
    IndexFrom(s, (b: byte) => b == 10 || b == 13, 0)
  }

  /**
    * The events of a stream that starts between frames. A text frame runs to its newline and counts if it has
    * fewer than 100 bytes. A binary frame announces 1..100 bytes; a longer announcement is skipped on its own,
    * and after an announcement of zero bytes no frame is ever completed again.
    */
  function Events(s: seq<byte>): seq<Event>
    decreases |s|
  {
    if s == [] then []
    else if s[0] == TEXT then
      var k := LineEnd(s[1..]);
      if k == |s| - 1 then []
      else (if k < 100 then [Command(s[1..k + 1])] else []) + Events(s[k + 2..])
    else if s[0] == BINARY then
      if |s| == 1 || s[1] == 0 then []
      else if s[1] > 100 then Events(s[2..])
      else if |s| < 2 + s[1] then []
      else [Command(s[2..2 + s[1]])] + Events(s[2 + s[1]..])
    else (if s[0] == LISTEN then [Listen] else []) + Events(s[1..])
  }

  lemma {:induction false} FeedText(p: Parser, line: seq<byte>)
    requires p.mode.Text? && |p.cmd| < MAX_BUF
    requires forall i :: 0 <= i < |line| ==> !IsNewline(line[i])
    ensures Feed(p, line).1 == []
    ensures |p.cmd| + |line| < MAX_BUF ==> Feed(p, line).0 == p.(cmd := p.cmd + line)
    ensures |p.cmd| + |line| >= MAX_BUF ==> Feed(p, line).0.mode.Skip?
    decreases |line|
  {
    if line == [] {
      assert p.cmd + line == p.cmd;
    } else {
      var p1 := ParseStep(p, line[0]).0;
      if p1.mode.Skip? {
        FeedSkip(p1, line[1..]);
      } else {
        FeedText(p1, line[1..]);
        assert p.cmd + [line[0]] + line[1..] == p.cmd + line;
      }
    }
  }

  lemma {:induction false} FeedSkip(p: Parser, line: seq<byte>)
    requires p.mode.Skip?
    requires forall i :: 0 <= i < |line| ==> !IsNewline(line[i])
    ensures Feed(p, line).0 == p && Feed(p, line).1 == []
    decreases |line|
  {
    if line != [] {
      FeedSkip(p, line[1..]);
    }
  }

  lemma {:induction false} FeedBinary(p: Parser, body: seq<byte>)
    requires p.mode.Binary? && p.left >= 1
    ensures |body| < p.left ==>
              && Feed(p, body).0 == Parser(Binary, p.cmd + body, p.left - |body|)
              && Feed(p, body).1 == []
    ensures |body| == p.left ==>
              && Feed(p, body).0 == Parser(Idle, p.cmd + body, 0)
              && Feed(p, body).1 == [Command(p.cmd + body)]
    decreases |body|
  {
    if body == [] {
      assert p.cmd + body == p.cmd;
    } else if |body| <= p.left {
      assert p.cmd + [body[0]] + body[1..] == p.cmd + body;
      if p.left > 1 {
        FeedBinary(ParseStep(p, body[0]).0, body[1..]);
      } else {
        assert body == [body[0]] && body[1..] == [];
      }
    }
  }

  /** After a zero-length announcement the countdown never reaches zero: every later byte is swallowed. */
  lemma {:induction false} FeedStuck(p: Parser, s: seq<byte>)
    requires p.mode.Binary? && p.left <= 0
    ensures Feed(p, s).0 == Parser(Binary, p.cmd + s, p.left - |s|) && Feed(p, s).1 == []
    decreases |s|
  {
    if s == [] {
      assert p.cmd + s == p.cmd;
    } else {
      FeedStuck(ParseStep(p, s[0]).0, s[1..]);
      assert p.cmd + [s[0]] + s[1..] == p.cmd + s;
    }
  }

  /** A text frame with its terminator: one command if it has fewer than 100 bytes. */
  lemma FeedTextFrame(p: Parser, line: seq<byte>, newline: byte, rest: seq<byte>) returns (q: Parser)
    requires p.mode.Idle? && IsNewline(newline)
    requires forall i :: 0 <= i < |line| ==> !IsNewline(line[i])
    ensures q.mode.Idle?
    ensures Feed(p, [TEXT] + (line + ([newline] + rest))).1 ==
            (if |line| < MAX_BUF then [Command(line)] else []) + Feed(q, rest).1
  {
    var begun := p.(mode := Text, cmd := []);
    assert ([TEXT] + (line + ([newline] + rest)))[1..] == line + ([newline] + rest);
    assert ([newline] + rest)[1..] == rest;
    FeedText(begun, line);
    assert [] + line == line;
    FeedConcat(begun, line, [newline] + rest);
    q := ParseStep(Feed(begun, line).0, newline).0;
  }

  lemma FeedOpenText(p: Parser, line: seq<byte>)
    requires p.mode.Idle?
    requires forall i :: 0 <= i < |line| ==> !IsNewline(line[i])
    ensures Feed(p, [TEXT] + line).1 == []
  {
    assert ([TEXT] + line)[1..] == line;
    FeedText(p.(mode := Text, cmd := []), line);
  }

  lemma FeedHeader(p: Parser, announced: byte, rest: seq<byte>)
    requires p.mode.Idle?
    ensures Feed(p, [BINARY, announced] + rest).1 ==
            Feed(if announced <= MAX_BUF then Parser(Binary, [], announced) else START, rest).1
  {
    var s := [BINARY, announced] + rest;
    assert s[1..] == [announced] + rest && s[1..][1..] == rest;
    assert ParseStep(Parser(Header, [], 0), announced).0 ==
           if announced <= MAX_BUF then Parser(Binary, [], announced) else START;
  }

  lemma FeedBinaryFrame(p: Parser, body: seq<byte>, rest: seq<byte>) returns (q: Parser)
    requires p.mode.Idle? && 1 <= |body| <= MAX_BUF
    ensures q.mode.Idle?
    ensures Feed(p, [BINARY, |body|] + (body + rest)).1 == [Command(body)] + Feed(q, rest).1
  {
    var expecting := Parser(Binary, [], |body|);
    FeedHeader(p, |body|, body + rest);
    FeedBinary(expecting, body);
    assert [] + body == body;
    FeedConcat(expecting, body, rest);
    q := Feed(expecting, body).0;
  }

  lemma TextRefines(p: Parser, s: seq<byte>) returns (q: Parser, rest: seq<byte>)
    requires p.mode.Idle? && s != [] && s[0] == TEXT
    ensures q.mode.Idle? && |rest| < |s|
    ensures Feed(q, rest).1 == Events(rest) ==> Feed(p, s).1 == Events(s)
  {
    var k := LineEnd(s[1..]);
    var line := s[1..k + 1];
    if k == |s| - 1 {
      assert s == [TEXT] + line;
      FeedOpenText(p, line);
      q, rest := p, [];
    } else {
      rest := s[k + 2..];
      assert s == [TEXT] + (line + ([s[k + 1]] + rest));
      q := FeedTextFrame(p, line, s[k + 1], rest);
    }
  }

  lemma BinaryRefines(p: Parser, s: seq<byte>) returns (q: Parser, rest: seq<byte>)
    requires p.mode.Idle? && |s| > 1 && s[0] == BINARY
    ensures q.mode.Idle? && |rest| < |s|
    ensures Feed(q, rest).1 == Events(rest) ==> Feed(p, s).1 == Events(s)
  {
    var n := s[1];
    q, rest := START, s[2..];
    assert s == [BINARY, n] + rest;
    FeedHeader(p, n, rest);
    if n == 0 {
      FeedStuck(Parser(Binary, [], 0), rest);
    } else if n <= MAX_BUF && |s| < 2 + n {
      FeedBinary(Parser(Binary, [], n), rest);
    } else if n <= MAX_BUF {
      var body := s[2..2 + n];
      rest := s[2 + n..];
      assert s == [BINARY, n] + (body + rest);
      q := FeedBinaryFrame(p, body, rest);
    }
  }

  /** The automaton by itself, as if its buffer had no end. */
  lemma {:induction false} AutomatonRefinesFrames(p: Parser, s: seq<byte>)
    requires p.mode.Idle?
    ensures Feed(p, s).1 == Events(s)
    decreases |s|
  {
    if s != [] && s[0] == TEXT {
      var q, rest := TextRefines(p, s);
      AutomatonRefinesFrames(q, rest);
    } else if |s| > 1 && s[0] == BINARY {
      var q, rest := BinaryRefines(p, s);
      AutomatonRefinesFrames(q, rest);
    } else if s != [] {
      AutomatonRefinesFrames(if s[0] == BINARY then START else p, s[1..]);
    }
  }

  /** Every byte of a stream finds room in nb->cmd. */
  predicate Fits(p: Parser, s: seq<byte>)
    decreases |s|
  {
    |p.cmd| <= MAX_BUF && (s != [] ==> Fits(ParseStep(p, s[0]).0, s[1..]))
  }

  /** tcp_parse and the frame-by-frame reading agree on every stream that stays inside nb->cmd. */
  lemma ParserRefinesFrames(p: Parser, s: seq<byte>)
    requires p.mode.Idle? && Fits(p, s)
    ensures Feed(p, s).1 == Events(s)
  {
    AutomatonRefinesFrames(p, s);
  }

  // ----- Writers -----

  predicate HasNewline(data: seq<byte>) {
    exists i :: 0 <= i < |data| && IsNewline(data[i])
  }

  function BinaryEncoded(data: seq<byte>, unsolicited: bool): seq<byte> {
    [if unsolicited then BINARY_UNSOLICITED else BINARY, ToByte(|data|)] + data
  }

  function Encoded(data: seq<byte>, unsolicited: bool): seq<byte> {
    if HasNewline(data) then BinaryEncoded(data, unsolicited)
    else [if unsolicited then TEXT_UNSOLICITED else TEXT] + data + [CR, LF]
  }

  /** Payloads the parser can hold: 99 bytes as text, 100 if a newline forces the binary form. */
  predicate Holds(data: seq<byte>) {
    |data| <= 99 || (|data| == 100 && HasNewline(data))
  }

  lemma LineEndIs(data: seq<byte>, newline: byte, rest: seq<byte>)
    requires !HasNewline(data) && IsNewline(newline)
    ensures LineEnd(data + ([newline] + rest)) == |data|
  {
    var s := data + ([newline] + rest);
    assert s[|data|] == newline;
    assert forall i :: 0 <= i < |data| ==> s[i] == data[i];
  }

  lemma TextFrame(data: seq<byte>, rest: seq<byte>)
    requires !HasNewline(data)
    ensures Events(Encoded(data, false) + rest) ==
            (if |data| < MAX_BUF then [Command(data)] else []) + Events(rest)
  {
    var s := Encoded(data, false) + rest;
    LineEndIs(data, CR, [LF] + rest);
    assert s[1..] == data + ([CR] + ([LF] + rest));
    assert s[1..|data| + 1] == data && s[|data| + 2..] == [LF] + rest;
    assert ([LF] + rest)[1..] == rest;
    assert Events([LF] + rest) == Events(rest);
  }

  lemma BinaryFrame(data: seq<byte>, rest: seq<byte>)
    requires HasNewline(data) && |data| <= MAX_BUF
    ensures Events(Encoded(data, false) + rest) == [Command(data)] + Events(rest)
  {
    var s := Encoded(data, false) + rest;
    assert s[0] == BINARY && s[1] == |data|;
    assert s[2..2 + |data|] == data && s[2 + |data|..] == rest;
  }

  lemma EncodedEvents(data: seq<byte>, rest: seq<byte>)
    requires Holds(data)
    ensures Events(Encoded(data, false) + rest) == [Command(data)] + Events(rest)
  {
    if HasNewline(data) {
      BinaryFrame(data, rest);
    } else {
      TextFrame(data, rest);
    }
  }

  /** No command the parser hands on is longer than its buffer. */
  lemma {:induction false} CommandsFit(s: seq<byte>, c: seq<byte>)
    requires Command(c) in Events(s)
    ensures |c| <= MAX_BUF
    decreases |s|
  {
    var first, rest := FirstEvents(s);
    if Command(c) !in first {
      CommandsFit(rest, c);
    }
  }

  /** A stream that has any events: those of its first frame, at most one, and the bytes after it. */
  lemma FirstEvents(s: seq<byte>) returns (first: seq<Event>, rest: seq<byte>)
    requires Events(s) != []
    ensures Events(s) == first + Events(rest) && |rest| < |s| && |first| <= 1
    ensures forall c | Command(c) in first :: |c| <= MAX_BUF
  {
    if s[0] == TEXT {
      var k := LineEnd(s[1..]);
      first, rest := if k < MAX_BUF then [Command(s[1..k + 1])] else [], s[k + 2..];
    } else if s[0] == BINARY {
      if s[1] > MAX_BUF {
        first, rest := [], s[2..];
      } else {
        first, rest := [Command(s[2..2 + s[1]])], s[2 + s[1]..];
      }
    } else {
      first, rest := if s[0] == LISTEN then [Listen] else [], s[1..];
    }
  }

  // ----- The command buffer -----

  /** Everything the automaton keeps true as long as no zero-length announcement arrives. */
  predicate InBounds(p: Parser) {
    && |p.cmd| <= MAX_BUF
    && (p.mode.Text? ==> |p.cmd| < MAX_BUF)
    && (p.mode.Header? ==> p.cmd == [])
    && (p.mode.Binary? ==> p.left >= 1 && |p.cmd| + p.left <= MAX_BUF)
  }

  predicate ZeroAnnounced(s: seq<byte>, i: nat)
    requires i < |s|
  {
    Feed(START, s[..i]).0.mode.Header? && s[i] == 0
  }

  lemma FeedSnoc(p: Parser, s: seq<byte>, b: byte)
    ensures Feed(p, s + [b]).0 == ParseStep(Feed(p, s).0, b).0
  {
    FeedConcat(p, s, [b]);
    assert [b][1..] == [];
  }

  /** In state 3: byte i announced the frame, what followed it is in cmd, and the countdown holds the rest. */
  predicate CountsDown(s: seq<byte>, i: nat)
    requires i < |s|
  {
    var p := Feed(START, s).0;
    Feed(START, s[..i]).0.mode.Header? && p.cmd == s[i + 1..] && |p.cmd| + p.left == s[i]
  }

  lemma BoundsStep(front: seq<byte>, last: byte)
    requires InBounds(Feed(START, front).0)
    requires Feed(START, front).0.mode.Header? ==> last != 0
    requires Feed(START, front).0.mode.Binary? ==> exists i | 0 <= i < |front| :: CountsDown(front, i)
    ensures InBounds(Feed(START, front + [last]).0)
    ensures Feed(START, front + [last]).0.mode.Binary? ==>
              exists i | 0 <= i < |front + [last]| :: CountsDown(front + [last], i)
  {
    var s := front + [last];
    FeedSnoc(START, front, last);
    var before := Feed(START, front).0;
    if before.mode.Binary? {
      var i :| 0 <= i < |front| && CountsDown(front, i);
      assert front[..i] == s[..i] && s[i + 1..] == front[i + 1..] + [last];
      assert Feed(START, s).0.mode.Binary? ==> CountsDown(s, i);
    } else if before.mode.Header? {
      assert s[..|front|] == front && s[|front| + 1..] == [];
      assert Feed(START, s).0.mode.Binary? ==> CountsDown(s, |front|);
    }
  }

  lemma {:induction false} BoundsKept(s: seq<byte>)
    requires forall i | 0 <= i < |s| :: !ZeroAnnounced(s, i)
    ensures InBounds(Feed(START, s).0)
    ensures Feed(START, s).0.mode.Binary? ==> exists i | 0 <= i < |s| :: CountsDown(s, i)
    decreases |s|
  {
    if s != [] {
      var front, last := s[..|s| - 1], s[|s| - 1];
      forall i | 0 <= i < |front|
        ensures !ZeroAnnounced(front, i)
      {
        assert front[..i] == s[..i];
        assert !ZeroAnnounced(s, i);
      }
      BoundsKept(front);
      assert s == front + [last];
      assert !ZeroAnnounced(s, |s| - 1);
      BoundsStep(front, last);
    }
  }

  lemma {:induction false} FitsPrefixes(p: Parser, s: seq<byte>)
    ensures Fits(p, s) <==> forall n | 0 <= n <= |s| :: |Feed(p, s[..n]).0.cmd| <= MAX_BUF
    decreases |s|
  {
    assert Feed(p, s[..0]).0 == p;
    if s != [] {
      var p1 := ParseStep(p, s[0]).0;
      FitsPrefixes(p1, s[1..]);
      forall n | 0 <= n < |s|
        ensures Feed(p, s[..n + 1]).0 == Feed(p1, s[1..][..n]).0
      {
        assert s[..n + 1][1..] == s[1..][..n];
      }
      if Fits(p, s) {
        forall n | 0 <= n <= |s|
          ensures |Feed(p, s[..n]).0.cmd| <= MAX_BUF
        {
          if n > 0 {
            assert Feed(p, s[..n - 1 + 1]).0 == Feed(p1, s[1..][..n - 1]).0;
          }
        }
      }
    }
  }

  /** A zero-length announcement with more bytes behind it than nb->cmd can take. */
  predicate Overruns(s: seq<byte>, i: nat)
    requires i < |s|
  {
    ZeroAnnounced(s, i) && |s| - i - 1 > MAX_BUF
  }

  /** A stream stays inside nb->cmd unless more than 100 bytes follow an announcement of zero bytes. */
  lemma FitsExactly(s: seq<byte>)
    ensures Fits(START, s) <==> !exists i | 0 <= i < |s| :: Overruns(s, i)
  {
    FitsPrefixes(START, s);
    if i :| 0 <= i < |s| && Overruns(s, i) {
      StuckAfterZero(s, i, |s|);
      assert |Feed(START, s[..|s|]).0.cmd| > MAX_BUF;
    }
    if n :| 0 <= n <= |s| && |Feed(START, s[..n]).0.cmd| > MAX_BUF {
      if forall i | 0 <= i < n :: !ZeroAnnounced(s, i) {
        forall i | 0 <= i < n
          ensures !ZeroAnnounced(s[..n], i)
        {
          assert s[..n][..i] == s[..i];
          assert !ZeroAnnounced(s, i);
        }
        BoundsKept(s[..n]);
        assert false;
      }
      var i :| 0 <= i < n && ZeroAnnounced(s, i);
      StuckAfterZero(s, i, n);
      assert Overruns(s, i);
    }
  }

  lemma {:induction false} HeaderIsEmpty(s: seq<byte>)
    ensures var p := Feed(START, s).0; p.mode.Header? ==> p.cmd == []
    decreases |s|
  {
    if s != [] {
      var front, last := s[..|s| - 1], s[|s| - 1];
      HeaderIsEmpty(front);
      assert s == front + [last];
      FeedSnoc(START, front, last);
    }
  }

  lemma StuckAfterZero(s: seq<byte>, i: nat, n: nat)
    requires i < n <= |s| && ZeroAnnounced(s, i)
    ensures Feed(START, s[..n]).0 == Parser(Binary, s[i + 1..n], -(n - i - 1))
  {
    HeaderIsEmpty(s[..i]);
    FeedSnoc(START, s[..i], s[i]);
    assert s[..i] + [s[i]] == s[..i + 1];
    assert s[..n] == s[..i + 1] + s[i + 1..n];
    FeedConcat(START, s[..i + 1], s[i + 1..n]);
    FeedStuck(Feed(START, s[..i + 1]).0, s[i + 1..n]);
    assert [] + s[i + 1..n] == s[i + 1..n];
  }

  // ----- Round trip -----

  /** A stream that leaves the parser outside state 3 has not overrun nb->cmd. */
  lemma SettledFits(s: seq<byte>)
    requires !Feed(START, s).0.mode.Binary?
    ensures Fits(START, s)
  {
    FitsExactly(s);
    assert s[..|s|] == s;
    if i :| 0 <= i < |s| && Overruns(s, i) {
      StuckAfterZero(s, i, |s|);
    }
  }

  lemma LineBreakSettles(p: Parser)
    requires p.mode.Text? || p.mode.Skip?
    ensures Feed(p, [CR, LF]).0.mode.Idle?
  {
    assert [CR, LF][1..] == [LF] && [LF][1..] == [];
    assert Feed(ParseStep(p, CR).0, [LF]).0.mode.Idle?;
  }

  lemma EncodedSettles(p: Parser, data: seq<byte>)
    requires p.mode.Idle? && Holds(data)
    ensures Feed(p, Encoded(data, false)).0.mode.Idle?
  {
    var s := Encoded(data, false);
    if HasNewline(data) {
      assert s[1..][1..] == data && ParseStep(Parser(Header, [], 0), |data|).0 == Parser(Binary, [], |data|);
      FeedBinary(Parser(Binary, [], |data|), data);
    } else {
      var begun := p.(mode := Text, cmd := []);
      assert s == [TEXT] + (data + [CR, LF]) && s[1..] == data + [CR, LF];
      FeedText(begun, data);
      FeedConcat(begun, data, [CR, LF]);
      LineBreakSettles(Feed(begun, data).0);
    }
  }

  /** A payload is read back as itself, inside nb->cmd, iff the parser can hold it. */
  lemma PayloadRoundTrip(data: seq<byte>)
    ensures var s := Encoded(data, false);
            Fits(START, s) && Feed(START, s).1 == [Command(data)] <==> Holds(data)
  {
    var s := Encoded(data, false);
    AutomatonRefinesFrames(START, s);
    assert s + [] == s;
    if Holds(data) {
      EncodedEvents(data, []);
      EncodedSettles(START, data);
      SettledFits(s);
    } else if !HasNewline(data) {
      TextFrame(data, []);
    } else if Command(data) in Events(s) {
      CommandsFit(s, data);
    } else {
      assert [Command(data)][0] == Command(data);
    }
  }

  function EncodedAll(payloads: seq<seq<byte>>): seq<byte> {
    if payloads == [] then [] else Encoded(payloads[0], false) + EncodedAll(payloads[1..])
  }

  function Commands(payloads: seq<seq<byte>>): (es: seq<Event>)
    ensures |es| == |payloads| && forall i | 0 <= i < |payloads| :: es[i] == Command(payloads[i])
  {
    if payloads == [] then [] else [Command(payloads[0])] + Commands(payloads[1..])
  }

  /** Lists of payloads come back one callback each, in order and for every split into reads, iff each is held. */
  lemma {:induction false} StreamRoundTrip(payloads: seq<seq<byte>>, chunks: seq<seq<byte>>)
    requires Flatten(chunks) == EncodedAll(payloads)
    ensures Fits(START, Flatten(chunks)) && FeedChunks(START, chunks).1 == Commands(payloads)
            <==> forall m :: m in payloads ==> Holds(m)
  {
    ChunkingIsInvisible(START, chunks);
    AutomatonRefinesFrames(START, EncodedAll(payloads));
    if forall m :: m in payloads ==> Holds(m) {
      EventsOfEncodedAll(payloads);
      AllSettle(START, payloads);
      SettledFits(EncodedAll(payloads));
    }
    if Events(EncodedAll(payloads)) == Commands(payloads) {
      forall i | 0 <= i < |payloads|
        ensures |payloads[i]| <= MAX_BUF
      {
        assert Commands(payloads)[i] == Command(payloads[i]);
        CommandsFit(EncodedAll(payloads), payloads[i]);
      }
      ShortEvents(payloads);
    }
  }

  lemma {:induction false} EventsOfEncodedAll(payloads: seq<seq<byte>>)
    requires forall m :: m in payloads ==> Holds(m)
    ensures Events(EncodedAll(payloads)) == Commands(payloads)
  {
    if payloads != [] {
      EncodedEvents(payloads[0], EncodedAll(payloads[1..]));
      EventsOfEncodedAll(payloads[1..]);
    }
  }

  lemma {:induction false} AllSettle(p: Parser, payloads: seq<seq<byte>>)
    requires p.mode.Idle? && forall m :: m in payloads ==> Holds(m)
    ensures Feed(p, EncodedAll(payloads)).0.mode.Idle?
    decreases |payloads|
  {
    if payloads != [] {
      var first := Encoded(payloads[0], false);
      EncodedSettles(p, payloads[0]);
      FeedConcat(p, first, EncodedAll(payloads[1..]));
      AllSettle(Feed(p, first).0, payloads[1..]);
    }
  }

  /** Of payloads of at most 100 bytes, those that do not hold are dropped. */
  lemma {:induction false} ShortEvents(payloads: seq<seq<byte>>)
    requires forall m :: m in payloads ==> |m| <= MAX_BUF
    ensures |Events(EncodedAll(payloads))| <= |payloads|
    ensures |Events(EncodedAll(payloads))| == |payloads| ==> forall m :: m in payloads ==> Holds(m)
  {
    if payloads != [] {
      var first, rest := payloads[0], payloads[1..];
      assert payloads == [first] + rest;
      ShortEvents(rest);
      if HasNewline(first) {
        BinaryFrame(first, EncodedAll(rest));
      } else {
        TextFrame(first, EncodedAll(rest));
      }
    }
  }

  // ----- Unsolicited data -----

  /** How a listener turns the lower-case header of unsolicited data into that of a frame. */
  function Solicited(s: seq<byte>): seq<byte> {
    if s != [] && s[0] == Ascii('c') then [Ascii('C')] + s[1..]
    else if s != [] && s[0] == Ascii('b') then [Ascii('B')] + s[1..]
    else s
  }

  /**
    * Unsolicited data goes out in the same form under a header of its own, so a listener can tell it from a reply and
    * gets the payload back under the same condition. An L registers a listener.
    */
  lemma UnsolicitedRoundTrip(data: seq<byte>)
    ensures Events([Ascii('L')]) == [Listen]
    ensures Encoded(data, false)[0] == if HasNewline(data) then Ascii('B') else Ascii('C')
    ensures var s := Encoded(data, true);
            && s[0] == (if HasNewline(data) then Ascii('b') else Ascii('c'))
            && Solicited(s) == Encoded(data, false)
            && (Fits(START, Solicited(s)) && Feed(START, Solicited(s)).1 == [Command(data)] <==> Holds(data))
  {
    PayloadRoundTrip(data);
    assert [Ascii('L')][1..] == [] && Events([]) == [];
    assert Encoded(data, true)[1..] == Encoded(data, false)[1..];
    assert [Encoded(data, false)[0]] + Encoded(data, false)[1..] == Encoded(data, false);
  }

  // ----- A connection -----

  /** struct nodebuffer; `log` records the calls of nb->callback and listen_register. */
  class NodeBuffer {
    const cmd: array<byte>
    var cmdlen: int
    var state: int
    var cmdbinlen: int
    var log: seq<Event>

    constructor ()
      ensures Valid() && View() == START && log == [] && fresh(cmd)
    {
      cmd := new byte[MAX_BUF];
      cmdlen, state, cmdbinlen, log := 0, 0, 0, [];
    }

    ghost predicate Valid()
      reads this
    {
      cmd.Length == MAX_BUF && 0 <= cmdlen <= MAX_BUF && 0 <= state <= 4
    }

    ghost function View(): Parser
      requires Valid()
      reads this, cmd
    {
      Parser([Idle, Text, Header, Binary, Skip][state], cmd[..cmdlen], cmdbinlen)
    }

    method Parse(data: byte)
      requires Valid() && Fits(View(), [data])
      modifies this, cmd
      ensures Valid() && View() == ParseStep(old(View()), data).0
      ensures log == old(log) + ParseStep(old(View()), data).1
    {
      ghost var was := View();
      assert Fits(ParseStep(was, data).0, []) by { assert [data][1..] == []; }
      if state == 0 {
        if data == TEXT {
          state := 1;
          cmdlen := 0;
        } else if data == BINARY {
          state := 2;
          cmdlen := 0;
          cmdbinlen := 0;
        } else if data == LISTEN {
          log := log + [Listen];
        }
      } else if state == 1 {
        if data == LF || data == CR {
          log := log + [Command(cmd[..cmdlen])];
          state := 0;
        } else {
          cmd[cmdlen] := data;
          cmdlen := cmdlen + 1;
          assert cmd[..cmdlen] == was.cmd + [data];
          if cmdlen == MAX_BUF {
            state := 4;
          }
        }
      } else if state == 2 {
        if data <= MAX_BUF {
          cmdbinlen := data;
          state := 3;
        } else {
          state := 0;
        }
      } else if state == 3 {
        cmd[cmdlen] := data;
        cmdlen := cmdlen + 1;
        assert cmd[..cmdlen] == was.cmd + [data];
        cmdbinlen := cmdbinlen - 1;
        if cmdbinlen == 0 {
          log := log + [Command(cmd[..cmdlen])];
          state := 0;
        }
      } else {
        if data == LF || data == CR {
          state := 0;
        }
      }
    }

    /** The byte loop of tcp_listener_read over one read of a data connection. */
    method ListenerRead(buf: seq<byte>)
      requires Valid() && Fits(View(), buf)
      modifies this, cmd
      ensures Valid() && View() == Feed(old(View()), buf).0
      ensures log == old(log) + Feed(old(View()), buf).1
    {
      for i := 0 to |buf|
        invariant Valid() && Fits(View(), buf[i..])
        invariant Feed(old(View()), buf).0 == Feed(View(), buf[i..]).0
        invariant old(log) + Feed(old(View()), buf).1 == log + Feed(View(), buf[i..]).1
      {
        assert buf[i..][1..] == buf[i + 1..];
        assert Fits(View(), [buf[i]]);
        Parse(buf[i]);
      }
    }
  }

  /** An output stream and the two writers. */
  class OutputStream {
    var written: seq<byte>

    method Write(data: seq<byte>)
      modifies this
      ensures written == old(written) + data
    {
      written := written + data;
    }

    method WriteBinaryEncoded(data: seq<byte>, unsolicited: bool)
      modifies this
      ensures written == old(written) + BinaryEncoded(data, unsolicited)
    {
      if unsolicited {
        Write([BINARY_UNSOLICITED]);
      } else {
        Write([BINARY]);
      }
      Write([ToByte(|data|)]);
      Write(data);
    }

    method WriteCharacterEncoded(data: seq<byte>, unsolicited: bool)
      modifies this
      ensures written == old(written) + Encoded(data, unsolicited)
    {
      var i := 0;
      while i < |data|
        invariant 0 <= i <= |data|
        invariant forall j :: 0 <= j < i ==> !IsNewline(data[j])
      {
        if data[i] == CR || data[i] == LF {
          assert IsNewline(data[i]) && HasNewline(data);
          WriteBinaryEncoded(data, unsolicited);
          return;
        }
        i := i + 1;
      }
      if unsolicited {
        Write([TEXT_UNSOLICITED]);
      } else {
        Write([TEXT]);
      }
      assert data[..i] == data && !HasNewline(data);
      Write(data[..i]);
      Write([CR]);
      Write([LF]);
    }
  }
}
