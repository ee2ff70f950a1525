/** Which events the threads of src/packet.c post in any run, timely or not, and where the main loop takes them. */
module PumpEvents {
  import opened Bytes
  import opened Packets
  import opened Pump
  import opened PumpSafety
  import opened PumpFaults
  import opened PumpThreads

  // ----- What the bridge sent -----

  function StatusOf(a: Action): seq<Status> {
    if a.BridgeSends? && a.i.StatusIn? then [a.i.status] else []
  }

  function StatusesSent(actions: seq<Action>): seq<Status> {
    if actions == [] then []
    else StatusesSent(actions[..|actions| - 1]) + StatusOf(actions[|actions| - 1])
  }

  /** A packet as the reader has to report it: with the number of statuses that came before it. */
  datatype Heard = Heard(flags: byte, payload: seq<byte>, at: nat)

  function HeardFrom(a: Action, at: nat): seq<Heard> {
    if a.BridgeSends? && a.i.PacketIn? then [Heard(a.i.flags, a.i.payload, at)] else []
  }

  function PacketsSent(actions: seq<Action>): seq<Heard> {
    if actions == [] then []
    else
      var front := actions[..|actions| - 1];
      PacketsSent(front) + HeardFrom(actions[|actions| - 1], |StatusesSent(front)|)
  }

  /** What the node table answers when the reader takes a packet off the line. */
  function FoundBy(s: State, a: Action): seq<Option<nat>> {
    if a.ReaderStep? && s.reader.Reading? && s.line != [] && s.line[0].PacketIn? then [a.found] else []
  }

  function NodesFound(actions: seq<Action>): seq<Option<nat>> {
    if actions == [] then []
    else
      var front := actions[..|actions| - 1];
      NodesFound(front) + (if Run(front).Some? then FoundBy(Run(front).value, actions[|actions| - 1]) else [])
  }

  // ----- Where it is -----

  function HeardIn(posted: seq<Posted>): seq<Heard> {
    if posted == [] then []
    else
      var e := posted[|posted| - 1];
      HeardIn(posted[..|posted| - 1]) +
      (if e.kind.PacketEvent? then [Heard(e.kind.flags, e.kind.payload, e.at)] else [])
  }

  function NodesIn(posted: seq<Posted>): seq<Option<nat>> {
    if posted == [] then []
    else
      var e := posted[|posted| - 1];
      NodesIn(posted[..|posted| - 1]) + (if e.kind.PacketEvent? then [e.kind.node] else [])
  }

  /** The packet in the reader's hand. */
  function HeardBy(r: Reader, pushed: nat): seq<Heard> {
    match r
    case PacketFound(flags, payload, _) => [Heard(flags, payload, pushed)]
    case PacketCallback(flags, payload, _, _) => [Heard(flags, payload, pushed)]
    case PacketPosting(e) => if e.kind.PacketEvent? then [Heard(e.kind.flags, e.kind.payload, e.at)] else []
    case _ => []
  }

  function NodeBy(r: Reader): seq<Option<nat>> {
    match r
    case PacketFound(_, _, node) => [node]
    case PacketCallback(_, _, n, _) => [Some(n)]
    case PacketPosting(e) => if e.kind.PacketEvent? then [e.kind.node] else []
    case _ => []
  }

  /** The packets on the line, of which `before` statuses are ahead. */
  function HeardOn(line: seq<Incoming>, before: nat): seq<Heard> {
    if line == [] then []
    else
      match line[0]
      case PacketIn(flags, payload) => [Heard(flags, payload, before)] + HeardOn(line[1..], before)
      case StatusIn(_) => HeardOn(line[1..], before + 1)
      case OtherIn => HeardOn(line[1..], before)
  }

  // ----- Every packet is reported -----

  /** Packets in the order sent: those handled, the one in the reader's hand, those on the line. */
  predicate HasPackets(s: State, packets: seq<Heard>, nodes: seq<Option<nat>>) {
    && packets == HeardIn(s.posted) + (HeardBy(s.reader, s.pushed) + HeardOn(s.line, s.pushed + |InHand(s.reader)|))
    && nodes == NodesIn(s.posted) + NodeBy(s.reader)
  }

  /** Statuses in the order sent: those popped, those the writer has yet to pop, the one in hand, those on the line. */
  predicate HasStatuses(s: State, statuses: seq<Status>) {
    && statuses == s.answered && |s.statusq| <= s.pushed <= |s.answered|
    && s.statusq == s.answered[s.pushed - |s.statusq|..s.pushed]
    && s.answered[s.pushed..] == InHand(s.reader) + StatusesIn(s.line)
  }

  lemma {:induction false} HeardOnSnoc(line: seq<Incoming>, before: nat, i: Incoming)
    ensures HeardOn(line + [i], before) ==
            HeardOn(line, before) +
            (if i.PacketIn? then [Heard(i.flags, i.payload, before + |StatusesIn(line)|)] else [])
    decreases |line|
  {
    var more := line + [i];
    if line == [] {
      assert more[0] == i && more[1..] == [];
      assert HeardOn(more[1..], before) == [] && HeardOn(more[1..], before + 1) == [];
    } else {
      assert more[0] == line[0] && more[1..] == line[1..] + [i];
      HeardOnSnoc(line[1..], if line[0].StatusIn? then before + 1 else before, i);
    }
  }

  lemma PostedSnoc(posted: seq<Posted>, e: Posted)
    ensures HeardIn(posted + [e]) ==
            HeardIn(posted) + (if e.kind.PacketEvent? then [Heard(e.kind.flags, e.kind.payload, e.at)] else [])
    ensures NodesIn(posted + [e]) == NodesIn(posted) + (if e.kind.PacketEvent? then [e.kind.node] else [])
  {
    assert (posted + [e])[..|posted|] == posted;
  }

  lemma PostedOne(e: Posted)
    ensures HeardIn([e]) == if e.kind.PacketEvent? then [Heard(e.kind.flags, e.kind.payload, e.at)] else []
    ensures NodesIn([e]) == if e.kind.PacketEvent? then [e.kind.node] else []
  {
    PostedSnoc([], e);
    assert [] + [e] == [e];
  }

  /** Statements of the reader that post one event, e: the packet in its hand, or one for the status in its hand. */
  lemma ReaderPosts(s: State, found: Option<nat>, u: State) returns (e: Posted)
    requires s.reader.PacketPosting? || s.reader.DonePosting? || s.reader.AbortPosting?
    requires ReaderNext(s, found) == Some(u)
    ensures u == s.(posted := s.posted + [e], reader := u.reader) && InHand(u.reader) == InHand(s.reader)
    ensures HeardBy(s.reader, s.pushed) == HeardIn([e]) && HeardBy(u.reader, u.pushed) == []
    ensures NodeBy(s.reader) == NodesIn([e]) && NodeBy(u.reader) == []
    ensures s.reader.PacketPosting? ==> e == s.reader.e
    ensures !s.reader.PacketPosting? ==> e.at == s.pushed && InHand(s.reader) != [] &&
                                         e.kind == StatusEvent(InHand(s.reader)[0])
  {
    match s.reader
    case PacketPosting(event) =>
      e := event;
      PostedOne(e);
    case DonePosting(callback, data) =>
      e := Posted(StatusEvent(Done), callback, data, s.pushed);
      PostedOne(e);
    case AbortPosting(callback, data) =>
      e := Posted(StatusEvent(Abort), callback, data, s.pushed);
      PostedOne(e);
  }

  /** Statements of the reader within a turn that post nothing. */
  predicate Thinks(r: Reader) {
    !r.Reading? && !r.PushingStatus? && !r.PacketPosting? && !r.DonePosting? && !r.AbortPosting?
  }

  lemma ReaderThinks(s: State, found: Option<nat>, u: State)
    requires Thinks(s.reader) && ReaderNext(s, found) == Some(u)
    ensures u == s.(reader := u.reader, streams := u.streams) && InHand(u.reader) == InHand(s.reader)
  {
  }

  lemma ThinkKeepsPacket(s: State, found: Option<nat>, u: State)
    requires Thinks(s.reader) && ReaderNext(s, found) == Some(u)
    ensures HeardBy(u.reader, u.pushed) == HeardBy(s.reader, s.pushed) && NodeBy(u.reader) == NodeBy(s.reader)
  {
  }

  // Packets

  lemma ReceivePackets(s: State, found: Option<nat>, u: State, packets: seq<Heard>, nodes: seq<Option<nat>>)
    requires s.reader.Reading? && ReaderNext(s, found) == Some(u) && HasPackets(s, packets, nodes)
    ensures HasPackets(u, packets, nodes + FoundBy(s, ReaderStep(found)))
  {
    assert u == s.(line := s.line[1..], reader := Begun(s.line[0], found));
    assert HeardBy(s.reader, s.pushed) == [] && NodeBy(s.reader) == [];
    assert HeardOn(s.line, s.pushed) == HeardBy(u.reader, u.pushed) + HeardOn(u.line, u.pushed + |InHand(u.reader)|);
    assert NodeBy(u.reader) == FoundBy(s, ReaderStep(found));
  }

  /** An event posted is the packet that was in hand, if it is one. */
  lemma PostPackets(s: State, e: Posted, u: State, packets: seq<Heard>, nodes: seq<Option<nat>>)
    requires u == s.(posted := s.posted + [e], reader := u.reader) && InHand(u.reader) == InHand(s.reader)
    requires HeardBy(s.reader, s.pushed) == HeardIn([e]) && HeardBy(u.reader, u.pushed) == []
    requires NodeBy(s.reader) == NodesIn([e]) && NodeBy(u.reader) == []
    requires HasPackets(s, packets, nodes)
    ensures HasPackets(u, packets, nodes)
  {
    PostedSnoc(s.posted, e);
    PostedOne(e);
  }

  lemma ReaderPackets(s: State, found: Option<nat>, u: State, packets: seq<Heard>, nodes: seq<Option<nat>>)
    requires ReaderNext(s, found) == Some(u) && HasPackets(s, packets, nodes)
    ensures HasPackets(u, packets, nodes + FoundBy(s, ReaderStep(found)))
  {
    assert nodes + [] == nodes;
    if s.reader.Reading? {
      ReceivePackets(s, found, u, packets, nodes);
    } else if Thinks(s.reader) {
      ReaderThinks(s, found, u);
      ThinkKeepsPacket(s, found, u);
    } else if !s.reader.PushingStatus? {
      var e := ReaderPosts(s, found, u);
      PostPackets(s, e, u, packets, nodes);
    }
  }

  // Statuses

  lemma ReceiveStatuses(s: State, found: Option<nat>, u: State, statuses: seq<Status>)
    requires s.reader.Reading? && ReaderNext(s, found) == Some(u) && HasStatuses(s, statuses)
    ensures HasStatuses(u, statuses)
  {
    assert u == s.(line := s.line[1..], reader := Begun(s.line[0], found));
    assert InHand(s.reader) + StatusesIn(s.line) == InHand(u.reader) + StatusesIn(u.line);
  }

  lemma PushStatuses(s: State, found: Option<nat>, u: State, statuses: seq<Status>)
    requires s.reader.PushingStatus? && ReaderNext(s, found) == Some(u) && HasStatuses(s, statuses)
    ensures HasStatuses(u, statuses)
  {
    var rest := StatusesIn(s.line);
    assert s.answered[s.pushed..] == [s.reader.status] + rest;
    assert s.answered[s.pushed] == s.answered[s.pushed..][0] == s.reader.status;
    assert s.answered[u.pushed..] == s.answered[s.pushed..][1..] == rest;
    var from := s.pushed - |s.statusq|;
    assert s.answered[from..u.pushed] == s.answered[from..s.pushed] + [s.answered[s.pushed]];
  }

  lemma ReaderStatuses(s: State, found: Option<nat>, u: State, statuses: seq<Status>)
    requires ReaderNext(s, found) == Some(u) && HasStatuses(s, statuses)
    ensures HasStatuses(u, statuses)
  {
    if s.reader.Reading? {
      ReceiveStatuses(s, found, u, statuses);
    } else if s.reader.PushingStatus? {
      PushStatuses(s, found, u, statuses);
    } else if Thinks(s.reader) {
      ReaderThinks(s, found, u);
    } else {
      var _ := ReaderPosts(s, found, u);
    }
  }

  // The other threads

  /** What the writer does that others see: it pops statuses and posts aborts. */
  ghost predicate WriterEffect(s: State, u: State) {
    && u.reader == s.reader && u.line == s.line && u.answered == s.answered && u.pushed == s.pushed
    && (u.statusq == s.statusq || (s.statusq != [] && u.statusq == s.statusq[1..]))
    && (u.posted == s.posted || exists callback, data ::
          u.posted == s.posted + [Posted(StatusEvent(Abort), callback, data, s.pushed)])
  }

  lemma WriterHasEffect(s: State, u: State)
    requires WriterNext(s) == Some(u)
    ensures WriterEffect(s, u)
  {
  }

  lemma WriterPackets(s: State, u: State, packets: seq<Heard>, nodes: seq<Option<nat>>)
    requires WriterEffect(s, u) && HasPackets(s, packets, nodes)
    ensures HasPackets(u, packets, nodes)
  {
    if u.posted != s.posted {
      var callback, data :| u.posted == s.posted + [Posted(StatusEvent(Abort), callback, data, s.pushed)];
      PostedSnoc(s.posted, Posted(StatusEvent(Abort), callback, data, s.pushed));
    }
  }

  lemma WriterStatuses(s: State, u: State, statuses: seq<Status>)
    requires WriterEffect(s, u) && HasStatuses(s, statuses)
    ensures HasStatuses(u, statuses)
  {
    if u.statusq != s.statusq {
      var from := s.pushed - |s.statusq|;
      assert s.answered[from..s.pushed][1..] == s.answered[from + 1..s.pushed];
    }
  }

  lemma BridgePackets(s: State, i: Incoming, u: State, packets: seq<Heard>, nodes: seq<Option<nat>>)
    requires Step(s, BridgeSends(i)) == Some(u) && HasPackets(s, packets, nodes) && HasStatuses(s, s.answered)
    ensures HasPackets(u, packets + HeardFrom(BridgeSends(i), |s.answered|), nodes)
  {
    var before := s.pushed + |InHand(s.reader)|;
    HeardOnSnoc(s.line, before, i);
    assert |s.answered[s.pushed..]| == |s.answered| - s.pushed;
    Regroup(HeardIn(s.posted), HeardBy(s.reader, s.pushed), HeardOn(s.line, before),
            HeardFrom(BridgeSends(i), |s.answered|));
  }

  lemma Regroup<T>(a: seq<T>, b: seq<T>, c: seq<T>, d: seq<T>)
    ensures a + (b + (c + d)) == a + (b + c) + d
  {
  }

  lemma BridgeStatuses(s: State, i: Incoming, u: State, statuses: seq<Status>)
    requires Step(s, BridgeSends(i)) == Some(u) && HasStatuses(s, statuses)
    ensures HasStatuses(u, statuses + StatusOf(BridgeSends(i)))
  {
    var more := StatusOf(BridgeSends(i));
    StatusesInSnoc(s.line, i);
    assert u.answered == s.answered + more;
    SlicesOfLonger(s.answered, more, s.pushed - |s.statusq|, s.pushed);
  }

  lemma SlicesOfLonger<T>(s: seq<T>, more: seq<T>, from: nat, upto: nat)
    requires from <= upto <= |s|
    ensures (s + more)[upto..] == s[upto..] + more && (s + more)[from..upto] == s[from..upto]
  {
  }

  lemma StepPackets(s: State, a: Action, u: State, packets: seq<Heard>, nodes: seq<Option<nat>>)
    requires Step(s, a) == Some(u) && HasPackets(s, packets, nodes) && HasStatuses(s, s.answered)
    ensures HasPackets(u, packets + HeardFrom(a, |s.answered|), nodes + FoundBy(s, a))
  {
    assert packets + [] == packets && nodes + [] == nodes;
    match a {
      case WriterStep =>
        WriterHasEffect(s, u);
        WriterPackets(s, u, packets, nodes);
      case ReaderStep(found) => ReaderPackets(s, found, u, packets, nodes);
      case BridgeSends(i) => BridgePackets(s, i, u, packets, nodes);
      case _ =>
    }
  }

  lemma StepStatuses(s: State, a: Action, u: State, statuses: seq<Status>)
    requires Step(s, a) == Some(u) && HasStatuses(s, statuses)
    ensures HasStatuses(u, statuses + StatusOf(a))
  {
    assert statuses + [] == statuses;
    match a {
      case WriterStep =>
        WriterHasEffect(s, u);
        WriterStatuses(s, u, statuses);
      case ReaderStep(found) => ReaderStatuses(s, found, u, statuses);
      case BridgeSends(i) => BridgeStatuses(s, i, u, statuses);
      case _ =>
    }
  }

  /**
    * In every run, late statuses and timeouts included, the statuses the bridge sent are those popped, those pushed and
    * not yet popped, the one in the reader's hand and those on the line, in this order.
    */
  lemma {:induction false} StatusesArePassedOn(actions: seq<Action>)
    requires Run(actions).Some?
    ensures HasStatuses(Run(actions).value, StatusesSent(actions))
    decreases |actions|
  {
    if actions != [] {
      var front, a := actions[..|actions| - 1], actions[|actions| - 1];
      StatusesArePassedOn(front);
      StepStatuses(Run(front).value, a, Run(actions).value, StatusesSent(front));
    }
  }

  /**
    * In every run the packets the bridge sent are those of the events posted, then the one in the reader's hand, then
    * those on the line, in this order, each with the node found for it when it was read and the number of statuses
    * sent before it.
    */
  lemma {:induction false} PacketsAreReported(actions: seq<Action>)
    requires Run(actions).Some?
    ensures HasPackets(Run(actions).value, PacketsSent(actions), NodesFound(actions))
    decreases |actions|
  {
    if actions != [] {
      var front, a := actions[..|actions| - 1], actions[|actions| - 1];
      PacketsAreReported(front);
      StatusesArePassedOn(front);
      StepPackets(Run(front).value, a, Run(actions).value, PacketsSent(front), NodesFound(front));
    }
  }

  // ----- Events of unknown nodes -----

  /** A packet from an address no node holds belongs to no stream. */
  predicate StrayHasNoStream(e: Posted) {
    e.kind.PacketEvent? && e.kind.node.None? ==> e.callback.None? && e.data == 0
  }

  ghost predicate StraysOk(s: State) {
    && (forall e | e in s.posted :: StrayHasNoStream(e))
    && (s.reader.PacketPosting? ==> s.reader.e.kind.PacketEvent? && StrayHasNoStream(s.reader.e))
  }

  lemma ReaderKeepsStrays(s: State, found: Option<nat>, u: State)
    requires ReaderNext(s, found) == Some(u) && StraysOk(s)
    ensures StraysOk(u)
  {
    if s.reader.PacketPosting? || s.reader.DonePosting? || s.reader.AbortPosting? {
      var e := ReaderPosts(s, found, u);
      assert StrayHasNoStream(e);
    } else {
      assert u.posted == s.posted;
    }
  }

  lemma {:induction false} StraysHaveNoStream(actions: seq<Action>)
    requires Run(actions).Some?
    ensures StraysOk(Run(actions).value)
    decreases |actions|
  {
    if actions != [] {
      var front, a := actions[..|actions| - 1], actions[|actions| - 1];
      StraysHaveNoStream(front);
      var s, u := Run(front).value, Run(actions).value;
      match a {
        case WriterStep => WriterHasEffect(s, u);
        case ReaderStep(found) => ReaderKeepsStrays(s, found, u);
        case _ =>
      }
    }
  }

  // ----- Acknowledgements -----

  /** In every run nobody is told Done but for a status Done of the bridge: event e reports status e.at. */
  lemma {:induction false} DoneIsAcknowledged(actions: seq<Action>, e: Posted)
    requires Run(actions).Some? && e in Run(actions).value.posted && e.kind == StatusEvent(Done)
    ensures e.at < |StatusesSent(actions)| && StatusesSent(actions)[e.at] == Done
    decreases |actions|
  {
    var front, a := actions[..|actions| - 1], actions[|actions| - 1];
    var s := Run(front).value;
    if e in s.posted {
      DoneIsAcknowledged(front, e);
    } else {
      StatusesArePassedOn(front);
      StraysHaveNoStream(front);
      NewDone(s, a, e);
    }
  }

  lemma NewDone(s: State, a: Action, e: Posted)
    requires Step(s, a).Some? && e in Step(s, a).value.posted && e !in s.posted && e.kind == StatusEvent(Done)
    requires HasStatuses(s, s.answered) && StraysOk(s)
    ensures e.at < |s.answered| && s.answered[e.at] == Done
  {
    if a.WriterStep? {
      WriterHasEffect(s, Step(s, a).value);
    } else if a.ReaderStep? {
      NewEventAnswers(s, a.found, Step(s, a).value, e);
    }
  }

  lemma NewEventAnswers(s: State, found: Option<nat>, u: State, e: Posted)
    requires ReaderNext(s, found) == Some(u) && e in u.posted && e !in s.posted && e.kind.StatusEvent?
    requires s.pushed <= |s.answered| && s.answered[s.pushed..] == InHand(s.reader) + StatusesIn(s.line)
    requires s.reader.PacketPosting? ==> s.reader.e.kind.PacketEvent?
    ensures e.at < |s.answered| && e.kind == StatusEvent(s.answered[e.at])
  {
    if s.reader.PacketPosting? || s.reader.DonePosting? || s.reader.AbortPosting? {
      var posted := ReaderPosts(s, found, u);
      assert posted == e;
      assert s.answered[s.pushed] == s.answered[s.pushed..][0] == InHand(s.reader)[0];
    } else {
      assert false;
    }
  }

  // ----- Giving up -----

  function WriterSteps(more: seq<Action>): nat {
    if more == [] then 0 else (if more[0].WriterStep? then 1 else 0) + WriterSteps(more[1..])
  }

  /** The events the writer posts on the way. */
  function PostedByWriter(s: State, more: seq<Action>): seq<Posted>
    decreases |more|
  {
    if more == [] || Step(s, more[0]).None? then []
    else
      var t := Step(s, more[0]).value;
      (if more[0].WriterStep? && |s.posted| <= |t.posted| then t.posted[|s.posted|..] else []) +
      PostedByWriter(t, more[1..])
  }

  /** On the way the reader clears the callbacks for a status Abort. */
  predicate ReaderClears(s: State, more: seq<Action>)
    decreases |more|
  {
    more != [] && Step(s, more[0]).Some? &&
    ((more[0].ReaderStep? && s.reader.AbortClearing?) || ReaderClears(Step(s, more[0]).value, more[1..]))
  }

  /** What anybody else does to the next fields of node n while the writer gives up: only an abort touches them. */
  lemma OthersLeaveNext(s: State, a: Action, u: State, n: nat)
    requires Step(s, a) == Some(u) && !a.WriterStep? && !s.writer.Waiting?
    ensures u.writer == s.writer && u.nextnode == s.nextnode
    ensures At(u.streams, n).nextData == At(s.streams, n).nextData
    ensures || At(u.streams, n).nextCallback == At(s.streams, n).nextCallback
            || (At(u.streams, n).nextCallback.None? && a.ReaderStep? && s.reader.AbortClearing?)
  {
  }

  /** Statements left until the writer is ready for the next message. */
  function LeftToGiveUp(w: Writer): nat {
    match w
    case Expired => 5
    case ExpiredData => 4
    case ExpiredCallback(_) => 3
    case ExpiredPosting(_, _) => 2
    case Clearing => 1
    case _ => 0
  }

  /** The event carries the next fields of node n, but for a callback that a status Abort has cleared meanwhile. */
  predicate CarriesNext(s: State, more: seq<Action>, n: nat, e: Posted) {
    && e.kind == StatusEvent(Abort) && e.data == At(s.streams, n).nextData
    && (e.callback == At(s.streams, n).nextCallback || (e.callback.None? && ReaderClears(s, more)))
  }

  predicate Owes(s: State, more: seq<Action>, n: nat, e: Posted) {
    match s.writer
    case ExpiredPosting(callback, data) => e.kind == StatusEvent(Abort) && e.callback == callback && e.data == data
    case ExpiredCallback(data) =>
      && e.kind == StatusEvent(Abort) && e.data == data
      && (e.callback == At(s.streams, n).nextCallback || (e.callback.None? && ReaderClears(s, more)))
    case _ => CarriesNext(s, more, n, e)
  }

  lemma {:induction false} ClearedStays(s: State, more: seq<Action>, u: State, n: nat)
    requires Continue(s, more) == Some(u) && WriterSteps(more) == 0 && s.writer.Popping?
    requires At(s.streams, n).nextCallback.None?
    ensures u.writer.Popping? && At(u.streams, n).nextCallback.None? && PostedByWriter(s, more) == []
    decreases |more|
  {
    if more != [] {
      OthersLeaveNext(s, more[0], Step(s, more[0]).value, n);
      ClearedStays(Step(s, more[0]).value, more[1..], u, n);
    }
  }

  lemma WriterGivesUp(s: State, t: State, more: seq<Action>, n: nat)
    requires s.nextnode == Some(n) && LeftToGiveUp(s.writer) > 0 && WriterNext(s) == Some(t)
    ensures t.nextnode == s.nextnode && LeftToGiveUp(t.writer) == LeftToGiveUp(s.writer) - 1
    ensures s.writer.Clearing? ==> t.writer.Popping? && At(t.streams, n).nextCallback.None?
    ensures !s.writer.Clearing? ==> t.streams == s.streams
    ensures if s.writer.ExpiredPosting? then
              t.posted == s.posted + [Posted(StatusEvent(Abort), s.writer.callback, s.writer.data, s.pushed)]
            else t.posted == s.posted
    ensures t.writer.ExpiredCallback? ==> t.writer.data == At(s.streams, n).nextData
    ensures t.writer.ExpiredPosting? ==>
              t.writer.callback == At(s.streams, n).nextCallback && t.writer.data == s.writer.data
  {
  }

  lemma {:induction false} GivesUp(s: State, more: seq<Action>, u: State, n: nat)
    requires Continue(s, more) == Some(u) && s.nextnode == Some(n)
    requires LeftToGiveUp(s.writer) > 0 && WriterSteps(more) == LeftToGiveUp(s.writer)
    ensures u.writer.Popping? && At(u.streams, n).nextCallback.None?
    ensures s.writer.Clearing? ==> PostedByWriter(s, more) == []
    ensures !s.writer.Clearing? ==>
              |PostedByWriter(s, more)| == 1 && Owes(s, more, n, PostedByWriter(s, more)[0])
    decreases |more|
  {
    var a, rest := more[0], more[1..];
    var t := Step(s, a).value;
    if !a.WriterStep? {
      OthersLeaveNext(s, a, t, n);
      GivesUp(t, rest, u, n);
    } else {
      WriterGivesUp(s, t, rest, n);
      if s.writer.Clearing? {
        ClearedStays(t, rest, u, n);
      } else {
        GivesUp(t, rest, u, n);
      }
    }
  }

  /**
    * A wait that runs out, whatever the reader does meanwhile: with nextnode set the writer posts exactly one event
    * before it is ready for the next message, an abort with the data of that node and its callback (NULL if the
    * bridge's own abort has just cleared it), and leaves the callback cleared. With nextnode NULL it posts nothing.
    */
  lemma {:induction false} TimeoutIsReported(s: State, more: seq<Action>, u: State)
    requires TimeoutNext(s).Some? && Continue(TimeoutNext(s).value, more) == Some(u)
    requires WriterSteps(more) == if s.nextnode.Some? then 5 else 1
    ensures u.writer.Popping?
    ensures var posted := PostedByWriter(TimeoutNext(s).value, more);
            match s.nextnode
            case None => posted == []
            case Some(n) => |posted| == 1 && CarriesNext(TimeoutNext(s).value, more, n, posted[0]) &&
                            At(u.streams, n).nextCallback.None?
  {
    match s.nextnode
    case Some(n) => GivesUp(TimeoutNext(s).value, more, u, n);
    case None => NothingToReport(TimeoutNext(s).value, more, u);
  }

  lemma {:induction false} NothingToReport(s: State, more: seq<Action>, u: State)
    requires Continue(s, more) == Some(u) && s.nextnode.None?
    requires (s.writer.Expired? && WriterSteps(more) == 1) || (s.writer.Popping? && WriterSteps(more) == 0)
    ensures u.writer.Popping? && PostedByWriter(s, more) == []
    decreases |more|
  {
    if more != [] {
      var t := Step(s, more[0]).value;
      if !more[0].WriterStep? {
        OthersLeaveNext(s, more[0], t, 0);
      }
      NothingToReport(t, more[1..], u);
    }
  }

  // ----- The main loop -----

  function Dispatches(actions: seq<Action>): nat {
    if actions == [] then 0
    else Dispatches(actions[..|actions| - 1]) + (if actions[|actions| - 1].Dispatch? then 1 else 0)
  }

  /** Events are dispatched one by one, in the order they were posted. */
  lemma {:induction false} DispatchOrder(actions: seq<Action>, k: nat)
    requires Run(actions).Some? && k <= |actions|
    ensures Run(actions[..k]).Some?
    ensures var before, s := Run(actions[..k]).value, Run(actions).value;
            s.dispatched == Dispatches(actions) <= |s.posted| && before.posted <= s.posted
    decreases |actions|
  {
    StatusAccounting(actions);
    if k == |actions| {
      assert actions[..k] == actions;
      if actions != [] {
        var front, a := actions[..|actions| - 1], actions[|actions| - 1];
        DispatchOrder(front, |front|);
        PostedGrows(Run(front).value, a);
      }
    } else {
      var front, a := actions[..|actions| - 1], actions[|actions| - 1];
      assert front[..k] == actions[..k];
      DispatchOrder(front, k);
      PostedGrows(Run(front).value, a);
    }
  }

  lemma PostedGrows(s: State, a: Action)
    requires Step(s, a).Some?
    ensures s.posted <= Step(s, a).value.posted
    ensures Step(s, a).value.dispatched == s.dispatched + if a.Dispatch? then 1 else 0
  {
  }

  /**
    * In every run, bits 5 and 4 of the flags being UNSOLICITED and MGT: management packets from an address no node
    * holds, or that were not asked for, go to the bus management; other packets that were not asked for to the
    * listeners of their node; and what is left from an address no node holds to nobody.
    */
  lemma {:induction false} PacketsAreDispatched(actions: seq<Action>, e: Posted)
    requires Run(actions).Some? && e in Run(actions).value.posted && e.kind.PacketEvent?
    ensures var unsolicited, mgt := e.kind.flags / 32 % 2 == 1, e.kind.flags / 16 % 2 == 1;
            && (mgt && (unsolicited || e.kind.node.None?) ==> TargetOf(e) == BusManagement)
            && (!mgt && e.kind.node.None? ==> TargetOf(e) == Nobody)
            && (!mgt && unsolicited && e.kind.node.Some? ==> TargetOf(e) == Listeners(e.kind.node.value))
  {
    StraysHaveNoStream(actions);
    assert StrayHasNoStream(e);
  }

  /** In a timely run a status event goes to the callback of the message it is about, in queue order, if it has one. */
  lemma {:induction false} StatusesAreDispatched(actions: seq<Action>, e: Posted)
    requires IsTimely(actions) && Run(actions).Some?
    requires e in Run(actions).value.posted && e.kind.StatusEvent?
    ensures var s, queue := Run(actions).value, Enqueued(actions);
            && e.at < |queue| && e.at < |StatusesSent(actions)|
            && e.kind.status == StatusesSent(actions)[e.at] && e.data == queue[e.at].data
            && TargetOf(e) == match queue[e.at].callback
                              case Some(callback) => Forward(callback)
                              case None => Nobody
  {
    TimelyInv(actions);
    QueueOrder(actions);
    StatusesArePassedOn(actions);
    var s := Run(actions).value;
    StatusEventIsListed(s.posted, e);
    ReportIsRight(Queued(s), s.answered, Reported(s), e);
  }
}
