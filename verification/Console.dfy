/** The line automaton of src/cmdparser.c behind the control port. */
module Console {
  import opened Bytes

  /** gchar on the platforms where char is signed. */
  type schar = c: int | -128 <= c < 128

  const MAX_BUF := 100
  const LF: schar := 10
  const CR: schar := 13
  const SPACE: schar := 0x20

  predicate IsNewline(c: schar) {
    c == LF || c == CR
  }

  // ----- The automaton -----

  /** States 0..2 of cmdparser_parse. */
  datatype Mode = Waiting | Collecting | Dropping

  /** `cmd` is the first cmdlen characters of nb->cmd. */
  datatype Parser = Parser(mode: Mode, cmd: seq<schar>)

  /** The parser after one character and the command it ran, if any. */
  function ParseStep(p: Parser, c: schar): (Parser, Option<seq<schar>>) {
    match p.mode
    case Waiting =>
      if c >= SPACE then (Parser(Collecting, [c]), None) else (p, None)
    case Collecting =>
      if IsNewline(c) then (p.(mode := Waiting), Some(p.cmd))
      else if c < SPACE then (p.(mode := Dropping), None)
      else (Parser(if |p.cmd| + 1 == MAX_BUF then Dropping else Collecting, p.cmd + [c]), None)
    case Dropping =>
      (if IsNewline(c) then p.(mode := Waiting) else p, None)
  }

  /** State of a session: the parser, the commands run so far, and whether one of them closed the session. */
  datatype Session = Session(p: Parser, ran: seq<seq<schar>>, closed: bool)

  /** `exits` says which commands make cmdparser_cmd return -1. */
  function Feed(session: Session, s: seq<schar>, exits: seq<schar> -> bool): Session
    decreases |s|
  {
    if s == [] || session.closed then session
    else
      var (p, command) := ParseStep(session.p, s[0]);
      var next :=
        if command.None? then session.(p := p)
        else Session(p, session.ran + [command.value], exits(command.value));
      Feed(next, s[1..], exits)
  }

  const START := Session(Parser(Waiting, []), [], false)

  // ----- Reference: lines -----

  /** Index of the first newline, or the length if there is none. */
  function LineEnd(s: seq<schar>): nat {
    IndexFrom(s, (c: schar) => c == 10 || c == 13, 0)
  }

  /** The lines that are terminated, without their terminators. */
  function Lines(s: seq<schar>): seq<seq<schar>>
    decreases |s|
  {
    var k := LineEnd(s);
    if k == |s| then [] else [s[..k]] + Lines(s[k + 1..])
  }

  function Trimmed(line: seq<schar>): seq<schar> {
    if line == [] || line[0] >= 0x20 then line else Trimmed(line[1..])
  }

  /** A trimmed line that is run: 1..99 characters, none of them below 0x20. */
  predicate IsCommand(line: seq<schar>) {
    1 <= |line| <= 99 && forall i :: 0 <= i < |line| ==> line[i] >= 0x20
  }

  function Kept(line: seq<schar>): seq<seq<schar>> {
    if IsCommand(Trimmed(line)) then [Trimmed(line)] else []
  }

  function Commands(lines: seq<seq<schar>>): seq<seq<schar>> {
    if lines == [] then [] else Kept(lines[0]) + Commands(lines[1..])
  }

  /** The commands up to and including the first exit, and whether there is one. */
  function UntilExit(commands: seq<seq<schar>>, exits: seq<schar> -> bool): (seq<seq<schar>>, bool) {
    if commands == [] then ([], false)
    else if exits(commands[0]) then ([commands[0]], true)
    else
      var (ran, closed) := UntilExit(commands[1..], exits);
      ([commands[0]] + ran, closed)
  }

  lemma {:induction false} ClosedByAnExit(commands: seq<seq<schar>>, exits: seq<schar> -> bool)
    ensures var (ran, closed) := UntilExit(commands, exits);
            && ran <= commands
            && (closed <==> exists c :: c in commands && exits(c))
            && (!closed ==> ran == commands)
  {
    if commands != [] && !exits(commands[0]) {
      ClosedByAnExit(commands[1..], exits);
      assert commands == [commands[0]] + commands[1..];
    }
  }

  // ----- Refinement -----

  lemma {:induction false} FeedConcat(session: Session, a: seq<schar>, b: seq<schar>, exits: seq<schar> -> bool)
    ensures Feed(session, a + b, exits) == Feed(Feed(session, a, exits), b, exits)
    decreases |a|
  {
    if a == [] {
      assert a + b == b;
    } else if !session.closed {
      assert (a + b)[1..] == a[1..] + b;
      var (p, command) := ParseStep(session.p, a[0]);
      var next :=
        if command.None? then session.(p := p)
        else Session(p, session.ran + [command.value], exits(command.value));
      FeedConcat(next, a[1..], b, exits);
    }
  }

  lemma {:induction false} FeedDropping(session: Session, line: seq<schar>, exits: seq<schar> -> bool)
    requires session.p.mode.Dropping?
    requires forall i :: 0 <= i < |line| ==> !IsNewline(line[i])
    ensures Feed(session, line, exits) == session
    decreases |line|
  {
    if line != [] && !session.closed {
      FeedDropping(session, line[1..], exits);
    }
  }

  lemma {:induction false} FeedCollecting(session: Session, line: seq<schar>, exits: seq<schar> -> bool)
    requires !session.closed && session.p.mode.Collecting? && 0 < |session.p.cmd| < MAX_BUF
    requires forall i :: 0 <= i < |session.p.cmd| ==> session.p.cmd[i] >= SPACE
    requires forall i :: 0 <= i < |line| ==> !IsNewline(line[i])
    ensures var whole := session.p.cmd + line;
            var after := Feed(session, line, exits);
            && after.ran == session.ran && !after.closed
            && (IsCommand(whole) ==> after.p == Parser(Collecting, whole))
            && (!IsCommand(whole) ==> after.p.mode.Dropping?)
    decreases |line|
  {
    var cmd := session.p.cmd;
    if line == [] {
      assert cmd + line == cmd;
    } else {
      var next := session.(p := ParseStep(session.p, line[0]).0);
      assert (cmd + line)[|cmd|] == line[0];
      if next.p.mode.Dropping? {
        FeedDropping(next, line[1..], exits);
      } else {
        assert cmd + [line[0]] + line[1..] == cmd + line;
        FeedCollecting(next, line[1..], exits);
      }
    }
  }

  /** One line: it is run, trimmed, iff it is a command. */
  lemma {:induction false} FeedLine(session: Session, line: seq<schar>, exits: seq<schar> -> bool)
    requires !session.closed && session.p.mode.Waiting?
    requires forall i :: 0 <= i < |line| ==> !IsNewline(line[i])
    ensures var after := Feed(session, line, exits);
            && after.ran == session.ran && !after.closed
            && (if IsCommand(Trimmed(line)) then after.p == Parser(Collecting, Trimmed(line))
                else after.p.mode != Collecting)
    decreases |line|
  {
    if line != [] {
      if line[0] < SPACE {
        FeedLine(session, line[1..], exits);
      } else {
        var next := session.(p := Parser(Collecting, [line[0]]));
        assert [line[0]] + line[1..] == line;
        FeedCollecting(next, line[1..], exits);
      }
    }
  }

  /** A terminated line leaves the automaton waiting, with the line run if it is a command. */
  lemma FeedTerminated(session: Session, line: seq<schar>, newline: schar, exits: seq<schar> -> bool)
    requires !session.closed && session.p.mode.Waiting? && IsNewline(newline)
    requires forall i :: 0 <= i < |line| ==> !IsNewline(line[i])
    ensures var after := Feed(session, line + [newline], exits);
            && after.p.mode.Waiting?
            && after.ran == session.ran + Kept(line)
            && (after.closed <==> Kept(line) != [] && exits(Kept(line)[0]))
  {
    FeedLine(session, line, exits);
    FeedConcat(session, line, [newline], exits);
    var before := Feed(session, line, exits);
    var (p, command) := ParseStep(before.p, newline);
    var after := if command.None? then before.(p := p)
                 else Session(p, before.ran + [command.value], exits(command.value));
    assert [newline][1..] == [];
    assert Feed(after, [], exits) == after;
    assert Feed(before, [newline], exits) == after;
  }

  /** Feeding a stream is feeding its first line with the terminator, then the rest. */
  lemma FirstLine(session: Session, s: seq<schar>, exits: seq<schar> -> bool) returns (next: Session)
    requires !session.closed && session.p.mode.Waiting? && LineEnd(s) < |s|
    ensures var line, rest := s[..LineEnd(s)], s[LineEnd(s) + 1..];
            && Feed(session, s, exits) == Feed(next, rest, exits)
            && next.p.mode.Waiting? && next.ran == session.ran + Kept(line)
            && (next.closed <==> Kept(line) != [] && exits(Kept(line)[0]))
  {
    var k := LineEnd(s);
    var line, rest := s[..k], s[k + 1..];
    assert s == (line + [s[k]]) + rest;
    FeedConcat(session, line + [s[k]], rest, exits);
    FeedTerminated(session, line, s[k], exits);
    next := Feed(session, line + [s[k]], exits);
  }

  /** What the lines of a stream say a session becomes. */
  predicate Agrees(session: Session, s: seq<schar>, commands: seq<seq<schar>>, exits: seq<schar> -> bool) {
    var after := Feed(session, s, exits);
    && after.ran == session.ran + UntilExit(commands, exits).0
    && after.closed == UntilExit(commands, exits).1
  }

  lemma OpenLine(session: Session, s: seq<schar>, exits: seq<schar> -> bool)
    requires !session.closed && session.p.mode.Waiting? && LineEnd(s) == |s|
    ensures Agrees(session, s, Commands(Lines(s)), exits)
  {
    FeedLine(session, s, exits);
    assert Lines(s) == [] && Commands([]) == [] && session.ran + [] == session.ran;
  }

  lemma ClosedLine(session: Session, s: seq<schar>, next: Session, rest: seq<schar>,
                   kept: seq<seq<schar>>, later: seq<seq<schar>>, exits: seq<schar> -> bool)
    requires Feed(session, s, exits) == Feed(next, rest, exits) && |kept| <= 1
    requires next.ran == session.ran + kept && (next.closed <==> kept != [] && exits(kept[0]))
    requires !next.closed ==> Agrees(next, rest, later, exits)
    ensures Agrees(session, s, kept + later, exits)
  {
    OneMoreLine(kept, later, exits);
    if next.closed {
      ClosedForGood(next, rest, exits);
      assert kept + [] == kept;
    } else {
      var ran := UntilExit(later, exits).0;
      assert session.ran + kept + ran == session.ran + (kept + ran);
    }
  }

  lemma ClosedForGood(session: Session, s: seq<schar>, exits: seq<schar> -> bool)
    requires session.closed
    ensures Feed(session, s, exits) == session
  {
  }

  /** The automaton runs exactly the commands among the terminated lines, up to and including the first exit. */
  lemma {:induction false} ConsoleRefinesLines(session: Session, s: seq<schar>, exits: seq<schar> -> bool)
    requires !session.closed && session.p.mode.Waiting?
    ensures Agrees(session, s, Commands(Lines(s)), exits)
    decreases |s|
  {
    if LineEnd(s) == |s| {
      OpenLine(session, s, exits);
    } else {
      var line, rest := s[..LineEnd(s)], s[LineEnd(s) + 1..];
      var next := FirstLine(session, s, exits);
      LinesStep(s, line, rest);
      if !next.closed {
        ConsoleRefinesLines(next, rest, exits);
      }
      ClosedLine(session, s, next, rest, Kept(line), Commands(Lines(rest)), exits);
    }
  }

  lemma OneMoreLine(kept: seq<seq<schar>>, later: seq<seq<schar>>, exits: seq<schar> -> bool)
    requires |kept| <= 1
    ensures var stops := kept != [] && exits(kept[0]);
            && UntilExit(kept + later, exits).0 == kept + (if stops then [] else UntilExit(later, exits).0)
            && UntilExit(kept + later, exits).1 == (stops || UntilExit(later, exits).1)
  {
    if kept == [] {
      assert kept + later == later;
    } else {
      assert (kept + later)[1..] == later && kept == [kept[0]];
    }
  }

  lemma CommandsCons(line: seq<schar>, lines: seq<seq<schar>>)
    ensures Commands([line] + lines) == Kept(line) + Commands(lines)
  {
    var all := [line] + lines;
    assert all[0] == line && all[1..] == lines;
  }

  lemma LinesUnfold(s: seq<schar>)
    requires LineEnd(s) < |s|
    ensures Lines(s) == [s[..LineEnd(s)]] + Lines(s[LineEnd(s) + 1..])
  {
  }

  lemma LinesStep(s: seq<schar>, line: seq<schar>, rest: seq<schar>)
    requires LineEnd(s) < |s| && line == s[..LineEnd(s)] && rest == s[LineEnd(s) + 1..]
    ensures Commands(Lines(s)) == Kept(line) + Commands(Lines(rest))
  {
    LinesUnfold(s);
    CommandsCons(line, Lines(rest));
  }

  // ----- A control connection -----

  /** What holds of every state the automaton can be in: the next character finds room in nb->cmd. */
  predicate InBounds(p: Parser) {
    |p.cmd| <= MAX_BUF && (p.mode.Collecting? ==> |p.cmd| < MAX_BUF)
  }

  /** struct nodebuffer with n == NULL; `ran` records the calls of cmdparser_cmd. */
  class NodeBuffer {
    const cmd: array<schar>
    var cmdlen: int
    var state: int
    var ran: seq<seq<schar>>

    constructor ()
      ensures Valid() && View() == START.p && ran == [] && fresh(cmd)
    {
      cmd := new schar[MAX_BUF];
      cmdlen, state, ran := 0, 0, [];
    }

    ghost predicate Valid()
      reads this, cmd
    {
      cmd.Length == MAX_BUF && 0 <= cmdlen <= MAX_BUF && 0 <= state <= 2 && InBounds(View())
    }

    ghost function View(): Parser
      requires cmd.Length == MAX_BUF && 0 <= cmdlen <= MAX_BUF && 0 <= state <= 2
      reads this, cmd
    {
      Parser([Waiting, Collecting, Dropping][state], cmd[..cmdlen])
    }

    /** cmdparser_parse; returns whether the connection stays open. */
    method Parse(data: schar, exits: seq<schar> -> bool) returns (open: bool)
      requires Valid()
      modifies this, cmd
      ensures Valid() && View() == ParseStep(old(View()), data).0
      ensures match ParseStep(old(View()), data).1
              case None => ran == old(ran) && open
              case Some(command) => ran == old(ran) + [command] && open == !exits(command)
    {
      ghost var was := View();
      if state == 0 {
        if data >= SPACE {
          state := 1;
          cmdlen := 0;
        } else {
          return true;
        }
      }
      if state == 1 {
        if data == LF || data == CR {
          state := 0;
          ran := ran + [cmd[..cmdlen]];
          if exits(cmd[..cmdlen]) {
            return false;
          }
        } else if data < SPACE {
          state := 2;
        } else {
          cmd[cmdlen] := data;
          cmdlen := cmdlen + 1;
          assert cmd[..cmdlen] == (if was.mode.Waiting? then [] else was.cmd) + [data];
          if cmdlen == MAX_BUF {
            state := 2;
          }
        }
      } else if state == 2 {
        if data == LF || data == CR {
          state := 0;
        }
      }
      return true;
    }

    /** The byte loop of tcp_listener_read over one read of a control connection. */
    method ListenerRead(buf: seq<schar>, exits: seq<schar> -> bool) returns (open: bool)
      requires Valid()
      modifies this, cmd
      ensures Valid()
      ensures Session(View(), ran, !open) == Feed(Session(old(View()), old(ran), false), buf, exits)
    {
      ghost var begin := Session(View(), ran, false);
      for i := 0 to |buf|
        invariant Valid()
        invariant Feed(begin, buf, exits) == Feed(Session(View(), ran, false), buf[i..], exits)
      {
        assert buf[i..][1..] == buf[i + 1..];
        open := Parse(buf[i], exits);
        if !open {
          return;
        }
      }
      return true;
    }
  }
}
