/**
  * What can go wrong in packet.c and exactly when: data races once a wait has run out or the bridge has sent a status
  * too many; acknowledgements of the wrong message and a null nextnode, if it sends none, once a wait has run out.
  */
module PumpFaults {
  import opened Bytes
  import opened Pump
  import opened PumpSafety

  // ----- Continuations -----

  function Continue(s: State, more: seq<Action>): Option<State>
    decreases |more|
  {
    if more == [] then Some(s)
    else
      match Step(s, more[0])
      case None => None
      case Some(s1) => Continue(s1, more[1..])
  }

  predicate AreFair(s: State, more: seq<Action>)
    decreases |more|
  {
    more == [] || (IsFair(s, more[0]) && (Step(s, more[0]).Some? ==> AreFair(Step(s, more[0]).value, more[1..])))
  }

  /** From s, with no wait that runs out and no status too many, the system can get to u. */
  ghost predicate FairlyReaches(s: State, u: State) {
    exists more :: AreFair(s, more) && Continue(s, more) == Some(u)
  }

  /** What goes wrong: a race, an acknowledgement with the stream of another message, a null nextnode followed. */
  datatype Fault = DataRace | WrongReport | NullRead

  /** The writer, too, dereferences nextnode after a timeout. */
  predicate WriterUsesNextNode(w: Writer) {
    w.ExpiredData? || w.ExpiredCallback? || w.Clearing?
  }

  predicate Shows(s: State, f: Fault) {
    match f
    case DataRace => Race(s)
    case WrongReport => Misreports(s)
    case NullRead => (UsesNextNode(s.reader) || WriterUsesNextNode(s.writer)) && s.nextnode.None?
  }

  /** The bridge and the clock behave from here on, and yet the fault can show. */
  ghost predicate CanShow(s: State, f: Fault) {
    exists u :: FairlyReaches(s, u) && Shows(u, f)
  }

  /** Neither a wait that runs out nor a status. */
  predicate IsQuiet(a: Action) {
    !a.Timeout? && (a.BridgeSends? ==> !a.i.StatusIn?)
  }

  ghost predicate QuietlyReaches(s: State, u: State) {
    exists more :: (forall a | a in more :: IsQuiet(a)) && Continue(s, more) == Some(u)
  }

  lemma {:induction false} ContinueConcat(s: State, a: seq<Action>, b: seq<Action>)
    requires Continue(s, a).Some?
    ensures Continue(s, a + b) == Continue(Continue(s, a).value, b)
    ensures AreFair(s, a) && AreFair(Continue(s, a).value, b) ==> AreFair(s, a + b)
    decreases |a|
  {
    if a == [] {
      assert a + b == b;
    } else {
      assert (a + b)[1..] == a[1..] + b;
      ContinueConcat(Step(s, a[0]).value, a[1..], b);
    }
  }

  lemma {:induction false} QuietIsFair(s: State, quiet: seq<Action>)
    requires forall a | a in quiet :: IsQuiet(a)
    ensures AreFair(s, quiet)
    decreases |quiet|
  {
    if quiet != [] {
      assert IsQuiet(quiet[0]);
      if Step(s, quiet[0]).Some? {
        QuietIsFair(Step(s, quiet[0]).value, quiet[1..]);
      }
    }
  }

  lemma Here(s: State)
    ensures QuietlyReaches(s, s)
  {
    assert Continue(s, []) == Some(s);
  }

  lemma OneStep(s: State, a: Action, u: State)
    requires Step(s, a) == Some(u)
    ensures Continue(s, [a]) == Some(u) && (IsFair(s, a) ==> FairlyReaches(s, u))
  {
    assert [a][1..] == [];
    assert Continue(u, []) == Some(u);
    assert IsFair(s, a) ==> AreFair(s, [a]);
  }

  /** One more quiet step. */
  lemma Onward(s: State, t: State, a: Action, u: State)
    requires QuietlyReaches(s, t) && IsQuiet(a) && Step(t, a) == Some(u)
    ensures QuietlyReaches(s, u)
  {
    var more :| (forall b | b in more :: IsQuiet(b)) && Continue(s, more) == Some(t);
    ContinueConcat(s, more, [a]);
    OneStep(t, a, u);
    assert Continue(s, more + [a]) == Some(u);
  }

  lemma OnwardTo(s: State, t: State, u: State)
    requires QuietlyReaches(s, t) && QuietlyReaches(t, u)
    ensures QuietlyReaches(s, u)
  {
    var first :| (forall b | b in first :: IsQuiet(b)) && Continue(s, first) == Some(t);
    var second :| (forall b | b in second :: IsQuiet(b)) && Continue(t, second) == Some(u);
    ContinueConcat(s, first, second);
    assert Continue(s, first + second) == Some(u);
  }

  lemma QuietlyIsFairly(s: State, u: State)
    requires QuietlyReaches(s, u)
    ensures FairlyReaches(s, u)
  {
    var more :| (forall b | b in more :: IsQuiet(b)) && Continue(s, more) == Some(u);
    QuietIsFair(s, more);
  }

  lemma FairlyTo(s: State, t: State, u: State)
    requires FairlyReaches(s, t) && FairlyReaches(t, u)
    ensures FairlyReaches(s, u)
  {
    var first :| AreFair(s, first) && Continue(s, first) == Some(t);
    var second :| AreFair(t, second) && Continue(t, second) == Some(u);
    ContinueConcat(s, first, second);
    assert AreFair(s, first + second);
  }

  lemma FaultAhead(s: State, t: State, f: Fault)
    requires QuietlyReaches(s, t) || FairlyReaches(s, t)
    requires Shows(t, f) || CanShow(t, f)
    ensures CanShow(s, f)
  {
    if QuietlyReaches(s, t) {
      QuietlyIsFairly(s, t);
    }
    if !Shows(t, f) {
      var u :| FairlyReaches(t, u) && Shows(u, f);
      FairlyTo(s, t, u);
    }
  }

  /** What every continuation keeps. */
  lemma {:induction false} Along(s: State, more: seq<Action>, u: State)
    requires Accounts(s) && Continue(s, more) == Some(u)
    ensures Accounts(u) && Queued(s) <= Queued(u)
    decreases |more|
  {
    if more != [] {
      var t := Step(s, more[0]).value;
      AccountsKept(s, more[0]);
      StepKeepsQueue(s, more[0], t);
      Along(t, more[1..], u);
    }
  }

  lemma FairlyAlong(s: State, u: State)
    requires Accounts(s) && FairlyReaches(s, u)
    ensures Accounts(u) && Queued(s) <= Queued(u)
  {
    var more :| AreFair(s, more) && Continue(s, more) == Some(u);
    Along(s, more, u);
  }

  // ----- The reader catches up -----

  /** Statements left in the reader's turn. */
  function Left(r: Reader): nat {
    match r
    case Reading => 0
    case PacketFound(_, _, _) => 3
    case PacketCallback(_, _, _, _) => 2
    case PacketPosting(_) => 1
    case DoneTest => 5
    case DoneCallback => 4
    case DoneData(_) => 3
    case DonePosting(_, _) => 2
    case AbortTest => 6
    case AbortData => 5
    case AbortCallback(_) => 4
    case AbortPosting(_, _) => 3
    case AbortClearing => 2
    case PushingStatus(_) => 1
  }

  /** The reader can finish its turn: if it has yet to dereference nextnode, that is a node. */
  predicate CanGoOn(s: State) {
    UsesNextNode(s.reader) || s.reader.AbortPosting? ==> s.nextnode.Some?
  }

  /** What reader steps leave alone. */
  predicate SameButReader(s: State, u: State) {
    && u.writer == s.writer && u.nextnode == s.nextnode && u.outq == s.outq
    && u.written == s.written && u.answered == s.answered
    && u.completed == s.completed && u.timeouts == s.timeouts
  }

  lemma ReaderGoesOn(s: State) returns (u: State)
    requires CanGoOn(s) && (s.reader.Reading? ==> s.line != [])
    ensures ReaderNext(s, None) == Some(u) && CanGoOn(u) && SameButReader(s, u)
    ensures if s.reader.Reading? then u.line == s.line[1..] else u.line == s.line && Left(u.reader) < Left(s.reader)
  {
    u := ReaderNext(s, None).value;
  }

  /** The reader handles everything on the line but the last `keep` messages. */
  lemma {:induction false} Drain(s: State, keep: nat) returns (u: State)
    requires CanGoOn(s) && keep <= |s.line| && Accounts(s)
    ensures QuietlyReaches(s, u) && Accounts(u) && SameButReader(s, u)
    ensures u.reader.Reading? && u.line == s.line[|s.line| - keep..]
    decreases |s.line|, Left(s.reader)
  {
    Here(s);
    if s.reader.Reading? && |s.line| == keep {
      u := s;
    } else {
      var t := ReaderGoesOn(s);
      AccountsKept(s, ReaderStep(None));
      Onward(s, s, ReaderStep(None), t);
      u := Drain(t, keep);
      OnwardTo(s, t, u);
    }
  }

  // ----- The writer goes on -----

  /** What the steps of the writer in this section leave alone. */
  predicate SameButWriter(s: State, u: State) {
    && u.reader == s.reader && u.line == s.line && u.answered == s.answered
    && u.statusq == s.statusq && u.pushed == s.pushed
  }

  /** There is always a next message: m, if nothing is queued. */
  lemma PopNext(s: State, m: Message) returns (u: State)
    requires s.writer.Popping?
    ensures QuietlyReaches(s, u) && SameButWriter(s, u) && u.nextnode == s.nextnode && u.written == s.written
    ensures s.outq == [] ==> u.outq == [] && u.writer == SettingNode(m)
    ensures s.outq != [] ==> u.outq == s.outq[1..] && u.writer == SettingNode(s.outq[0])
  {
    Here(s);
    var t := s;
    if s.outq == [] {
      t := Step(s, Enqueue(m)).value;
      Onward(s, s, Enqueue(m), t);
    }
    u := WriterNext(t).value;
    Onward(s, t, WriterStep, u);
  }

  /** The writer fills in the shared variables for its message. */
  lemma Prepare(s: State) returns (u: State)
    requires s.writer.SettingNode?
    ensures QuietlyReaches(s, u) && SameButWriter(s, u) && u.written == s.written
    ensures u.writer == Writing(s.writer.m) && NextIs(u, s.writer.m) && u.outq == s.outq && u.posted == s.posted
  {
    Here(s);
    var m := s.writer.m;
    u := WriterNext(s).value;
    Onward(s, s, WriterStep, u);
    if m.node.Some? {
      var s2 := WriterNext(u).value;
      Onward(s, u, WriterStep, s2);
      u := WriterNext(s2).value;
      Onward(s, s2, WriterStep, u);
    }
  }

  /** With a status in its queue the writer finishes its message and takes the next one, or m. */
  lemma PassOn(s: State, m: Message) returns (u: State)
    requires (s.writer.Writing? || s.writer.Waiting?) && s.statusq != []
    ensures QuietlyReaches(s, u) && u.reader == s.reader && u.line == s.line && u.answered == s.answered
    ensures u.statusq == s.statusq[1..] && |u.written| == Started(s) && u.nextnode == s.nextnode
    ensures s.outq == [] ==> u.outq == [] && u.writer == SettingNode(m)
    ensures s.outq != [] ==> u.outq == s.outq[1..] && u.writer == SettingNode(s.outq[0])
  {
    Here(s);
    var t := s;
    if s.writer.Writing? {
      t := WriterNext(s).value;
      Onward(s, s, WriterStep, t);
    }
    var popped := WriterNext(t).value;
    Onward(s, t, WriterStep, popped);
    u := PopNext(popped, m);
    OnwardTo(s, popped, u);
  }

  /** After a timeout the writer reports an abort if nextnode is set, and is ready for the next message. */
  lemma GiveUp(s: State) returns (u: State)
    requires s.writer.Expired?
    ensures QuietlyReaches(s, u) && SameButWriter(s, u) && u.writer.Popping?
    ensures u.written == s.written && u.outq == s.outq
  {
    Here(s);
    u := WriterNext(s).value;
    Onward(s, s, WriterStep, u);
    if s.nextnode.Some? {
      var clearing := Report(s);
      u := WriterNext(clearing).value;
      Onward(s, clearing, WriterStep, u);
    }
  }

  lemma Report(s: State) returns (u: State)
    requires s.writer.Expired? && s.nextnode.Some?
    ensures QuietlyReaches(s, u) && SameButWriter(s, u) && u.writer.Clearing?
    ensures u.written == s.written && u.outq == s.outq && u.nextnode == s.nextnode
  {
    Here(s);
    var s1 := WriterNext(s).value;
    Onward(s, s, WriterStep, s1);
    var s2 := WriterNext(s1).value;
    Onward(s, s1, WriterStep, s2);
    var s3 := WriterNext(s2).value;
    Onward(s, s2, WriterStep, s3);
    u := WriterNext(s3).value;
    Onward(s, s3, WriterStep, u);
  }

  // ----- The races -----

  /** A status is read while the writer sets nextnode. */
  lemma StatusMeetsWriter(s: State)
    requires s.reader.Reading? && s.line != [] && s.line[0].StatusIn? && s.writer.SettingNode?
    ensures CanShow(s, DataRace)
  {
    Here(s);
    var u := ReaderNext(s, None).value;
    Onward(s, s, ReaderStep(None), u);
    assert NextNode in WriterAccess(u).stores * ReaderAccess(u).loads;
    FaultAhead(s, u, DataRace);
  }

  /** The bridge still owes a status when the writer has gone on to the next message. */
  lemma LateStatusMeetsWriter(s: State)
    requires s.reader.Reading? && s.line == [] && s.writer.SettingNode? && |s.answered| < |s.written|
    ensures CanShow(s, DataRace)
  {
    var late := BridgeSends(StatusIn(Done));
    var u := Step(s, late).value;
    StatusMeetsWriter(u);
    OneStep(s, late, u);
    FaultAhead(s, u, DataRace);
  }

  /** A status is read while the writer sets the next fields of the same node. */
  lemma StatusMeetsFields(s: State)
    requires s.reader.Reading? && s.line != [] && s.line[0].StatusIn? && s.nextnode.Some?
    requires (s.writer.SettingCallback? || s.writer.SettingData?) && s.writer.m.node == s.nextnode
    ensures CanShow(s, DataRace)
  {
    var n, a := s.nextnode.value, ReaderStep(None);
    Here(s);
    var s1 := ReaderNext(s, None).value;
    Onward(s, s, a, s1);
    var s2 := ReaderNext(s1, None).value;
    Onward(s, s1, a, s2);
    if s.writer.SettingCallback? == s2.reader.DoneCallback? {
      assert Race(s2) by {
        var shared := if s.writer.SettingCallback? then NextCallback(n) else NextData(n);
        assert shared in WriterAccess(s2).stores * ReaderAccess(s2).loads;
      }
      FaultAhead(s, s2, DataRace);
    } else {
      var s3 := ReaderNext(s2, None).value;
      Onward(s, s2, a, s3);
      var shared := if s.writer.SettingCallback? then NextCallback(n) else NextData(n);
      assert shared in WriterAccess(s3).stores * ReaderAccess(s3).loads;
      FaultAhead(s, s3, DataRace);
    }
  }

  /**
    * Wherever in any run the writer gives up while nextnode is set, a race can be reached without any further
    * status: the reader looks up the stream of a plain packet from that node while the writer clears it.
    */
  lemma {:induction false} TimeoutAloneRaces(actions: seq<Action>)
    requires Run(actions).Some? && TimeoutNext(Run(actions).value).Some? && Run(actions).value.nextnode.Some?
    ensures exists u :: QuietlyReaches(TimeoutNext(Run(actions).value).value, u) && Race(u)
  {
    var s := Run(actions).value;
    var n := s.nextnode.value;
    var expired := TimeoutNext(s).value;
    StatusAccounting(actions);
    AccountsKept(s, Timeout);
    var idle := Drain(expired, 0);
    var packet := BridgeSends(PacketIn(0, []));
    var sent := Step(idle, packet).value;
    Onward(expired, idle, packet, sent);
    var found := ReaderNext(sent, Some(n)).value;
    Onward(expired, sent, ReaderStep(Some(n)), found);
    var u := Report(found);
    OnwardTo(expired, found, u);
    assert CurrentCallback(n) in WriterAccess(u).stores * ReaderAccess(u).loads;
  }

  // ----- Leaving the assumption -----

  /** In a timely run the reader can always finish its turn. */
  lemma {:induction false} TimelyGoesOn(actions: seq<Action>)
    requires IsTimely(actions) && Run(actions).Some?
    ensures CanGoOn(Run(actions).value) && Accounts(Run(actions).value) && Inv(Run(actions).value)
  {
    TimelyInv(actions);
    StatusAccounting(actions);
    var s := Run(actions).value;
    if InHand(s.reader) != [] {
      InFlight(s);
    }
  }

  /**
    * The bridge has fallen behind: the writer has gone on to the next message while the status of one written before
    * is still to come, and nothing else is under way.
    */
  predicate IsLagging(s: State) {
    && Accounts(s) && s.writer.SettingNode? && s.reader.Reading? && s.line == [] && s.statusq == []
    && |s.answered| < |s.written|
  }

  /** A wait that runs out leaves the bridge behind, if need be after the stale status has ended one more wait. */
  lemma TimeoutLags(s: State) returns (u: State)
    requires TimeoutNext(s).Some? && CanGoOn(s) && Accounts(s) && Counts(s)
    ensures FairlyReaches(TimeoutNext(s).value, u) && IsLagging(u)
  {
    var m := Message(None, None, 0, []);
    var expired := TimeoutNext(s).value;
    AccountsKept(s, Timeout);
    var idle := Drain(expired, 0);
    assert StatusesIn(idle.line) == [];
    var given := GiveUp(idle);
    OnwardTo(expired, idle, given);
    u := PopNext(given, m);
    OnwardTo(expired, given, u);
    if |s.answered| == |s.written| {
      var prepared := Prepare(u);
      OnwardTo(expired, u, prepared);
      u := PassOn(prepared, m);
      OnwardTo(expired, prepared, u);
    }
    QuietlyIsFairly(expired, u);
    FairlyAlong(expired, u);
  }

  /** A status too many meets the writer while it sets up the next message. */
  lemma SpuriousStatusMeetsWriter(s: State, status: Status)
    requires CanGoOn(s) && Accounts(s) && Flow(s) && |s.answered| == Started(s)
    ensures CanShow(Step(s, BridgeSends(StatusIn(status))).value, DataRace)
  {
    var m := Message(None, None, 0, []);
    var spurious := BridgeSends(StatusIn(status));
    var u := Step(s, spurious).value;
    AccountsKept(s, spurious);
    var next := Drain(u, 1);
    assert next.line == [StatusIn(status)] && next.line[1..] == [];
    assert StatusesIn(next.line) == [status];
    if s.writer.SettingCallback? || s.writer.SettingData? {
      StatusMeetsFields(next);
    } else {
      if s.writer.Popping? {
        var popped := PopNext(next, m);
        OnwardTo(u, next, popped);
        next := popped;
      } else if s.writer.Writing? || s.writer.Waiting? {
        var passed := PassOn(next, m);
        OnwardTo(u, next, passed);
        next := passed;
      }
      StatusMeetsWriter(next);
    }
    FaultAhead(u, next, DataRace);
  }

  lemma {:induction false} FairStep(actions: seq<Action>, s: State, a: Action)
    requires IsTimely(actions) && Run(actions) == Some(s) && IsFair(s, a)
    ensures IsTimely(actions + [a]) && Run(actions + [a]) == Step(s, a)
  {
    assert (actions + [a])[..|actions|] == actions;
  }

  lemma FirstFairStep(s: State, more: seq<Action>, u: State) returns (s1: State)
    requires more != [] && AreFair(s, more) && Continue(s, more) == Some(u)
    ensures IsFair(s, more[0]) && Step(s, more[0]) == Some(s1)
    ensures AreFair(s1, more[1..]) && Continue(s1, more[1..]) == Some(u)
  {
    s1 := Step(s, more[0]).value;
  }

  lemma MoveFirst<T>(a: seq<T>, b: seq<T>)
    requires b != []
    ensures a + b == a + [b[0]] + b[1..]
  {
  }

  lemma {:induction false} FairStaysTimely(actions: seq<Action>, s: State, more: seq<Action>, u: State)
    requires IsTimely(actions) && Run(actions) == Some(s) && AreFair(s, more) && Continue(s, more) == Some(u)
    ensures IsTimely(actions + more) && Run(actions + more) == Some(u)
    decreases |more|
  {
    if more == [] {
      assert actions + more == actions;
    } else {
      var s1 := FirstFairStep(s, more, u);
      FairStep(actions, s, more[0]);
      FairStaysTimely(actions + [more[0]], s1, more[1..], u);
      MoveFirst(actions, more);
    }
  }

  lemma {:induction false} TimelyCannotFail(actions: seq<Action>, f: Fault)
    requires IsTimely(actions) && Run(actions).Some?
    ensures !CanShow(Run(actions).value, f)
  {
    var s := Run(actions).value;
    forall u | FairlyReaches(s, u)
      ensures !Shows(u, f)
    {
      var more :| AreFair(s, more) && Continue(s, more) == Some(u);
      FairStaysTimely(actions, s, more, u);
      match f {
        case DataRace => NoDataRace(actions + more);
        case WrongReport =>
          TimelyInv(actions + more);
          NoMisreport(u);
        case NullRead =>
          StopAndWait(actions + more);
          TimelyInv(actions + more);
      }
    }
  }

  // ----- A bridge that has fallen behind -----

  /** One turn: the writer sends its message, the status that was due before comes, and the writer takes the next. */
  lemma Turn(s: State, m: Message) returns (u: State)
    requires IsLagging(s)
    ensures FairlyReaches(s, u) && IsLagging(u)
    ensures u.nextnode == s.writer.m.node && |u.answered| == |s.answered| + 1
    ensures s.outq == [] ==> u.outq == [] && u.writer == SettingNode(m)
    ensures s.outq != [] ==> u.outq == s.outq[1..]
  {
    var done := BridgeSends(StatusIn(Done));
    var prepared := Prepare(s);
    QuietlyIsFairly(s, prepared);
    FairlyAlong(s, prepared);
    var sent := Step(prepared, done).value;
    OneStep(prepared, done, sent);
    AccountsKept(prepared, done);
    FairlyTo(s, prepared, sent);
    var read := Drain(sent, 0);
    assert StatusesIn(read.line) == [];
    QuietlyIsFairly(sent, read);
    FairlyTo(s, sent, read);
    u := PassOn(read, m);
    QuietlyIsFairly(read, u);
    FairlyAlong(read, u);
    FairlyTo(s, read, u);
  }

  /** Turn after turn the queue empties, and the bridge is still behind. */
  lemma {:induction false} EmptyQueue(s: State) returns (u: State)
    requires IsLagging(s)
    ensures FairlyReaches(s, u) && IsLagging(u) && u.outq == []
    decreases |s.outq|
  {
    if s.outq == [] {
      Here(s);
      QuietlyIsFairly(s, s);
      u := s;
    } else {
      var t := Turn(s, Message(None, None, 0, []));
      u := EmptyQueue(t);
      FairlyTo(s, t, u);
    }
  }

  /** The reader turns an acknowledgement into an event for whatever nextnode points to. */
  lemma Acknowledge(s: State, m: Message) returns (u: State)
    requires s.reader.Reading? && s.line == [StatusIn(Done)] && m.node.Some? && NextIs(s, m)
    ensures QuietlyReaches(s, u) && Posted(StatusEvent(Done), m.callback, m.data, s.pushed) in u.posted
  {
    Here(s);
    var a := ReaderStep(None);
    var s1 := ReaderNext(s, None).value;
    Onward(s, s, a, s1);
    var s2 := ReaderNext(s1, None).value;
    Onward(s, s1, a, s2);
    var s3 := ReaderNext(s2, None).value;
    Onward(s, s2, a, s3);
    var s4 := ReaderNext(s3, None).value;
    Onward(s, s3, a, s4);
    u := ReaderNext(s4, None).value;
    Onward(s, s4, a, u);
  }

  /** The status that is due comes while the writer has prepared a message with other data. */
  lemma FreshMessageMisreported(s: State)
    requires IsLagging(s) && |s.answered| < |Queued(s)|
    requires s.writer.m.node.Some? && s.writer.m.data != Queued(s)[|s.answered|].data
    ensures CanShow(s, WrongReport)
  {
    var m, done := s.writer.m, BridgeSends(StatusIn(Done));
    var prepared := Prepare(s);
    QuietlyIsFairly(s, prepared);
    var sent := Step(prepared, done).value;
    OneStep(prepared, done, sent);
    FairlyTo(s, prepared, sent);
    assert sent.line == [StatusIn(Done)] && sent.pushed == |s.answered|;
    var u := Acknowledge(sent, m);
    QuietlyIsFairly(sent, u);
    FairlyTo(s, sent, u);
    FairlyAlong(s, u);
    var e := Posted(StatusEvent(Done), m.callback, m.data, |s.answered|);
    assert e in u.posted && IsWrong(u, e);
    FaultAhead(s, u, WrongReport);
  }

  lemma LaggingMisreports(s: State)
    requires IsLagging(s)
    ensures CanShow(s, WrongReport)
  {
    var empty := EmptyQueue(s);
    var due := |empty.answered| + 1;
    var data := if due < |Queued(empty)| then Queued(empty)[due].data + 1 else 0;
    var t := Turn(empty, Message(Some(0), None, data, []));
    FairlyAlong(empty, t);
    FairlyTo(s, empty, t);
    FreshMessageMisreported(t);
    FaultAhead(s, t, WrongReport);
  }

  /** The reader has found nextnode set when the writer sets it to NULL for a message without a node. */
  lemma NodelessMessageCrashes(s: State)
    requires IsLagging(s) && s.nextnode.Some? && s.writer.m.node.None?
    ensures CanShow(s, NullRead)
  {
    var done, a := BridgeSends(StatusIn(Done)), ReaderStep(None);
    var sent := Step(s, done).value;
    OneStep(s, done, sent);
    Here(sent);
    var s1 := ReaderNext(sent, None).value;
    Onward(sent, sent, a, s1);
    var s2 := ReaderNext(s1, None).value;
    Onward(sent, s1, a, s2);
    var u := WriterNext(s2).value;
    Onward(sent, s2, WriterStep, u);
    assert Shows(u, NullRead);
    FaultAhead(sent, u, NullRead);
    FaultAhead(s, sent, NullRead);
  }

  lemma LaggingCrashes(s: State)
    requires IsLagging(s)
    ensures CanShow(s, NullRead)
  {
    var empty := EmptyQueue(s);
    var t := Turn(empty, Message(Some(0), None, 0, []));
    FairlyTo(s, empty, t);
    var u := Turn(t, Message(None, None, 0, []));
    FairlyTo(s, t, u);
    NodelessMessageCrashes(u);
    FaultAhead(s, u, NullRead);
  }

  lemma TimeoutFails(s: State, f: Fault)
    requires TimeoutNext(s).Some? && CanGoOn(s) && Accounts(s) && Counts(s)
    ensures CanShow(TimeoutNext(s).value, f)
  {
    var u := TimeoutLags(s);
    match f {
      case DataRace => LateStatusMeetsWriter(u);
      case WrongReport => LaggingMisreports(u);
      case NullRead => LaggingCrashes(u);
    }
    FaultAhead(TimeoutNext(s).value, u, f);
  }

  // ----- One step -----

  /**
    * One step after a timely run: a race can be reached from there, with the bridge and the clock behaving from
    * then on, exactly if that step let a wait run out or brought a status too many.
    */
  lemma {:induction false} FirstUnfairStepRaces(actions: seq<Action>, a: Action)
    requires IsTimely(actions) && Run(actions).Some? && Run(actions + [a]).Some?
    ensures CanShow(Run(actions + [a]).value, DataRace) <==> !IsFair(Run(actions).value, a)
  {
    var s := Run(actions).value;
    assert (actions + [a])[..|actions|] == actions;
    TimelyGoesOn(actions);
    if IsFair(s, a) {
      TimelyCannotFail(actions + [a], DataRace);
    } else if a.Timeout? {
      TimeoutFails(s, DataRace);
    } else {
      SpuriousStatusMeetsWriter(s, a.i.status);
    }
  }

  /** If that step brought no status too many, each of the faults can show exactly if a wait ran out. */
  lemma {:induction false} FirstTimeoutFails(actions: seq<Action>, a: Action, f: Fault)
    requires IsTimely(actions) && Run(actions).Some? && Run(actions + [a]).Some?
    requires IsDue(Run(actions).value, a)
    ensures CanShow(Run(actions + [a]).value, f) <==> a.Timeout?
  {
    assert (actions + [a])[..|actions|] == actions;
    TimelyGoesOn(actions);
    if a.Timeout? {
      TimeoutFails(Run(actions).value, f);
    } else {
      TimelyCannotFail(actions + [a], f);
    }
  }

  // ----- Whole runs -----

  lemma {:induction false} RunPrefix(actions: seq<Action>, k: nat)
    requires k <= |actions| && Run(actions).Some?
    ensures Run(actions[..k]).Some?
    decreases |actions|
  {
    if k == |actions| {
      assert actions[..k] == actions;
    } else {
      assert actions[..|actions| - 1][..k] == actions[..k];
      RunPrefix(actions[..|actions| - 1], k);
    }
  }

  /** The state after the first k actions of a run. */
  function StateAt(actions: seq<Action>, k: nat): State
    requires k <= |actions| && Run(actions).Some?
  {
    RunPrefix(actions, k);
    Run(actions[..k]).value
  }

  /** From no state the run passes through can the fault be reached. */
  ghost predicate NeverCanShow(actions: seq<Action>, f: Fault)
    requires Run(actions).Some?
  {
    forall k | 0 <= k <= |actions| :: !CanShow(StateAt(actions, k), f)
  }

  lemma {:induction false} StatesOfLonger(front: seq<Action>, a: Action)
    requires Run(front + [a]).Some?
    ensures Run(front).Some? && StateAt(front + [a], |front| + 1) == Run(front + [a]).value
    ensures forall k | 0 <= k <= |front| :: StateAt(front + [a], k) == StateAt(front, k)
  {
    var actions := front + [a];
    assert actions[..|front|] == front && actions[..|front| + 1] == actions;
    forall k | 0 <= k <= |front|
      ensures StateAt(actions, k) == StateAt(front, k)
    {
      assert actions[..k] == front[..k];
    }
  }

  lemma {:induction false} NeverCanShowStep(front: seq<Action>, a: Action, f: Fault)
    requires Run(front + [a]).Some?
    ensures Run(front).Some?
    ensures NeverCanShow(front + [a], f) <==> NeverCanShow(front, f) && !CanShow(Run(front + [a]).value, f)
  {
    StatesOfLonger(front, a);
    var actions, n := front + [a], |front|;
    if NeverCanShow(front, f) && !CanShow(Run(actions).value, f) {
      forall k | 0 <= k <= n + 1
        ensures !CanShow(StateAt(actions, k), f)
      {
        if k <= n {
          assert !CanShow(StateAt(front, k), f);
        }
      }
    } else if k :| 0 <= k <= n && CanShow(StateAt(front, k), f) {
      assert CanShow(StateAt(actions, k), f);
    }
  }

  /**
    * "No mutex seems to be needed" is right of a run exactly if no wait runs out in it and no status comes but those
    * of messages begun: otherwise a race can be reached from some state it passes through.
    */
  lemma {:induction false} NoMutexNeededExactly(actions: seq<Action>)
    requires Run(actions).Some?
    ensures IsTimely(actions) <==> NeverCanShow(actions, DataRace)
    decreases |actions|
  {
    if actions == [] {
      TimelyCannotFail([], DataRace);
      assert actions[..0] == [];
    } else {
      var front, a := actions[..|actions| - 1], actions[|actions| - 1];
      assert actions == front + [a];
      NeverCanShowStep(front, a, DataRace);
      NoMutexNeededExactly(front);
      if IsTimely(front) {
        FirstUnfairStepRaces(front, a);
      }
    }
  }

  /** The bridge never sends a status too many, however late it is. */
  predicate IsSparing(actions: seq<Action>) {
    actions == [] ||
    var front, a := actions[..|actions| - 1], actions[|actions| - 1];
    IsSparing(front) && Run(front).Some? && IsDue(Run(front).value, a)
  }

  /**
    * With such a bridge each of the faults, acknowledgements of the wrong message and dereferences of a null
    * nextnode included, is out of reach all through a run exactly if no wait runs out in it.
    */
  lemma {:induction false} OnlyTimeoutsFail(actions: seq<Action>, f: Fault)
    requires Run(actions).Some? && IsSparing(actions)
    ensures Timeout !in actions <==> NeverCanShow(actions, f)
    ensures Timeout !in actions ==> IsTimely(actions)
    decreases |actions|
  {
    if actions == [] {
      TimelyCannotFail([], f);
      assert actions[..0] == [];
    } else {
      var front, a := actions[..|actions| - 1], actions[|actions| - 1];
      assert actions == front + [a];
      NeverCanShowStep(front, a, f);
      OnlyTimeoutsFail(front, f);
      if Timeout !in front {
        FirstTimeoutFails(front, a, f);
      }
    }
  }
}
