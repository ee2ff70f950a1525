/** What holds in every interleaving of packet.c while no wait runs out and the bridge sends no status too many. */
module PumpSafety {
  import opened Bytes
  import opened Pump

  // ----- The queue -----

  /** The message the writer has taken off the queue and not yet written. */
  function Held(w: Writer): seq<Message> {
    match w
    case SettingNode(m) => [m]
    case SettingCallback(m) => [m]
    case SettingData(m) => [m]
    case Writing(m) => [m]
    case _ => []
  }

  /** Every message queued so far, in queue order. */
  function Queued(s: State): seq<Message> {
    s.written + Held(s.writer) + s.outq
  }

  /** How many messages the bridge may have seen something of: those written, and the one being written. */
  function Started(s: State): nat {
    |s.written| + if s.writer.Writing? then 1 else 0
  }

  function Enqueued(actions: seq<Action>): seq<Message> {
    if actions == [] then []
    else
      var a := actions[|actions| - 1];
      Enqueued(actions[..|actions| - 1]) + (if a.Enqueue? then [a.m] else [])
  }

  /** In every run the messages written are the first ones queued: nothing is lost, reordered or sent twice. */
  lemma {:induction false} QueueOrder(actions: seq<Action>)
    requires Run(actions).Some?
    ensures var s := Run(actions).value;
            Enqueued(actions) == Queued(s) && s.written <= Enqueued(actions) && Started(s) <= |Enqueued(actions)|
    decreases |actions|
  {
    if actions != [] {
      var front, a := actions[..|actions| - 1], actions[|actions| - 1];
      QueueOrder(front);
      StepKeepsQueue(Run(front).value, a, Run(actions).value);
    }
  }

  lemma StepKeepsQueue(s: State, a: Action, u: State)
    requires Step(s, a) == Some(u)
    ensures Queued(u) == Queued(s) + if a.Enqueue? then [a.m] else []
  {
    if a.WriterStep? {
      WriterKeepsQueue(s, u);
    } else if a.Enqueue? {
      assert Queued(u) == Queued(s) + [a.m];
    }
  }

  lemma WriterKeepsQueue(s: State, u: State)
    requires WriterNext(s) == Some(u)
    ensures Queued(u) == Queued(s)
  {
    if s.writer.Popping? {
      assert s.outq == [s.outq[0]] + s.outq[1..];
    }
  }

  // ----- The environment assumption -----

  /** The bridge sends at most one status for each message it was given. */
  predicate IsDue(s: State, a: Action) {
    a.BridgeSends? && a.i.StatusIn? ==> |s.answered| < Started(s)
  }

  /** And no wait of the writer runs out. */
  predicate IsFair(s: State, a: Action) {
    !a.Timeout? && IsDue(s, a)
  }

  predicate IsTimely(actions: seq<Action>) {
    actions == [] ||
    var front, a := actions[..|actions| - 1], actions[|actions| - 1];
    IsTimely(front) && Run(front).Some? && IsFair(Run(front).value, a)
  }

  // ----- What the history says -----

  /** currentcallback and currentdata of node n once the first j messages have their status. */
  function Current(queued: seq<Message>, answered: seq<Status>, j: nat, n: nat): (Callback, nat)
    requires j <= |answered| && j <= |queued|
  {
    if j == 0 then (None, 0)
    else
      var before := Current(queued, answered, j - 1, n);
      var m := queued[j - 1];
      if m.node != Some(n) then before
      else if answered[j - 1].Done? then (m.callback, m.data)
      else (None, before.1)
  }

  /** The status events the first j statuses must produce: one for each message that has a node, with its own data. */
  function Reports(queued: seq<Message>, answered: seq<Status>, j: nat): seq<Posted>
    requires j <= |answered| && j <= |queued|
  {
    if j == 0 then []
    else
      var m := queued[j - 1];
      Reports(queued, answered, j - 1) +
      (if m.node.None? then [] else [Posted(StatusEvent(answered[j - 1]), m.callback, m.data, j - 1)])
  }

  function StatusEvents(posted: seq<Posted>): seq<Posted> {
    if posted == [] then []
    else
      var e := posted[|posted| - 1];
      StatusEvents(posted[..|posted| - 1]) + (if e.kind.StatusEvent? then [e] else [])
  }

  // ----- The invariant -----

  predicate NotExpired(w: Writer) {
    !w.Expired? && !w.ExpiredData? && !w.ExpiredCallback? && !w.ExpiredPosting? && !w.Clearing?
  }

  /** The baton: each message is at the writer, the bridge, the line, the reader or the status queue. */
  predicate Counts(s: State) {
    && s.timeouts == 0 && NotExpired(s.writer)
    && s.pushed <= |s.answered| <= Started(s)
    && s.answered[s.pushed..] == InHand(s.reader) + StatusesIn(s.line)
    && s.completed + |s.statusq| == s.pushed
    && |s.written| == s.completed + (if s.writer.Waiting? then 1 else 0)
  }

  predicate NextIs(s: State, m: Message) {
    && s.nextnode == m.node
    && (m.node.Some? ==>
          var st := At(s.streams, m.node.value); st.nextCallback == m.callback && st.nextData == m.data)
  }

  /** nextnode and the next fields hold the message in flight, until an abort has cleared them. */
  predicate NextOk(s: State)
    requires Counts(s)
  {
    match s.writer
    case SettingCallback(m) => m.node.Some? && s.nextnode == m.node
    case SettingData(m) =>
      m.node.Some? && s.nextnode == m.node && At(s.streams, m.node.value).nextCallback == m.callback
    case Writing(_) | Waiting =>
      s.pushed < Started(s) && s.reader != PushingStatus(Abort) ==> NextIs(s, Queued(s)[s.pushed])
    case _ => true
  }

  /** What the reader carries in its registers while it handles a status belongs to the message in flight. */
  predicate RegistersOk(s: State)
    requires Counts(s) && (InHand(s.reader) != [] ==> s.pushed < Started(s))
  {
    InHand(s.reader) != [] ==>
      var m := Queued(s)[s.pushed];
      match s.reader
      case DoneCallback | AbortData | AbortClearing => m.node.Some?
      case DoneData(callback) => m.node.Some? && callback == m.callback
      case DonePosting(callback, data) => m.node.Some? && callback == m.callback && data == m.data
      case AbortCallback(data) => m.node.Some? && data == m.data
      case AbortPosting(callback, data) => m.node.Some? && callback == m.callback && data == m.data
      case _ => true
  }

  /** How many statuses have reached currentcallback, currentdata and the event queue. */
  function CallbackSettled(s: State): nat {
    s.pushed + if s.reader.DoneData? || s.reader.DonePosting? || s.reader.PushingStatus? then 1 else 0
  }

  function DataSettled(s: State): nat {
    s.pushed + if s.reader.DonePosting? || s.reader.PushingStatus? then 1 else 0
  }

  function Reported(s: State): nat {
    s.pushed + if s.reader.AbortClearing? || s.reader.PushingStatus? then 1 else 0
  }

  /** What has been settled or reported has been answered, and what has been answered has been queued. */
  predicate Bounds(s: State) {
    && CallbackSettled(s) <= |s.answered| <= |Queued(s)|
    && DataSettled(s) <= |s.answered| && Reported(s) <= |s.answered|
  }

  predicate CurrentOk(s: State, n: nat)
    requires Bounds(s)
  {
    && At(s.streams, n).callback == Current(Queued(s), s.answered, CallbackSettled(s), n).0
    && At(s.streams, n).data == Current(Queued(s), s.answered, DataSettled(s), n).1
  }

  /** A packet event carries the stream that was current for its node when it was read. */
  predicate PacketOk(s: State, e: Posted)
    requires s.pushed <= |s.answered| <= |Queued(s)|
  {
    e.kind.PacketEvent? ==>
      && e.at <= s.pushed
      && (e.callback, e.data) == match e.kind.node
                                 case None => (None, 0)
                                 case Some(n) => Current(Queued(s), s.answered, e.at, n)
  }

  predicate PacketInHandOk(s: State)
    requires s.pushed <= |s.answered| <= |Queued(s)|
  {
    match s.reader
    case PacketCallback(_, _, n, callback) => callback == Current(Queued(s), s.answered, s.pushed, n).0
    case PacketPosting(e) => e.kind.PacketEvent? && PacketOk(s, e)
    case _ => true
  }

  /** Who holds the baton, and what is in the shared variables and registers meanwhile. */
  predicate Flow(s: State) {
    && Counts(s) && (InHand(s.reader) != [] ==> s.pushed < |s.answered|)
    && NextOk(s) && RegistersOk(s)
  }

  /** The current fields and the posted events are what the history says. */
  ghost predicate History(s: State)
    requires Bounds(s)
  {
    && (forall n :: CurrentOk(s, n))
    && (forall e | e in s.posted :: PacketOk(s, e))
    && PacketInHandOk(s)
    && StatusEvents(s.posted) == Reports(Queued(s), s.answered, Reported(s))
  }

  ghost predicate Inv(s: State) {
    Flow(s) && Bounds(s) && History(s)
  }

  // ----- Histories only grow -----

  lemma {:induction false} CurrentStable(w: seq<Message>, a: seq<Status>, w': seq<Message>, a': seq<Status>,
                                         j: nat, n: nat)
    requires w <= w' && a <= a' && j <= |a| && j <= |w|
    ensures Current(w, a, j, n) == Current(w', a', j, n)
  {
    if j > 0 {
      CurrentStable(w, a, w', a', j - 1, n);
    }
  }

  lemma {:induction false} ReportsStable(w: seq<Message>, a: seq<Status>, w': seq<Message>, a': seq<Status>, j: nat)
    requires w <= w' && a <= a' && j <= |a| && j <= |w|
    ensures Reports(w, a, j) == Reports(w', a', j)
  {
    if j > 0 {
      ReportsStable(w, a, w', a', j - 1);
    }
  }

  lemma StatusEventsSnoc(posted: seq<Posted>, e: Posted)
    ensures StatusEvents(posted + [e]) == StatusEvents(posted) + (if e.kind.StatusEvent? then [e] else [])
  {
    assert (posted + [e])[..|posted|] == posted;
  }

  // ----- The baton is passed on -----

  /** While the reader has a status in hand, the writer waits or is about to, and nothing else is under way. */
  lemma InFlight(s: State)
    requires Counts(s) && InHand(s.reader) != []
    ensures (s.writer.Waiting? || s.writer.Writing?) && s.statusq == [] && StatusesIn(s.line) == []
    ensures Started(s) == |s.answered| == s.pushed + 1 && s.answered[s.pushed] == InHand(s.reader)[0]
  {
    assert |s.answered| - s.pushed == |s.answered[s.pushed..]|;
    assert s.answered[s.pushed] == s.answered[s.pushed..][0];
  }

  lemma FlowBounds(s: State)
    requires Flow(s)
    ensures Bounds(s)
  {
  }

  lemma WriterKeepsFlow(s: State, u: State)
    requires WriterNext(s) == Some(u) && Flow(s)
    ensures Flow(u)
  {
    WriterKeepsQueue(s, u);
    if InHand(s.reader) != [] {
      InFlight(s);
    }
  }

  lemma BridgeKeepsFlow(s: State, i: Incoming, u: State)
    requires Step(s, BridgeSends(i)) == Some(u)
    requires Flow(s) && IsFair(s, BridgeSends(i))
    ensures Flow(u)
  {
    BridgeKeepsCounts(s, i, u);
  }

  lemma BridgeKeepsCounts(s: State, i: Incoming, u: State)
    requires Step(s, BridgeSends(i)) == Some(u)
    requires Counts(s) && IsFair(s, BridgeSends(i))
    ensures Counts(u)
  {
    StatusesInSnoc(s.line, i);
    assert u.answered[u.pushed..] == s.answered[s.pushed..] + (if i.StatusIn? then [i.status] else []);
  }

  lemma ReceiveKeepsFlow(s: State, found: Option<nat>, u: State)
    requires ReaderNext(s, found) == Some(u)
    requires Flow(s) && s.reader.Reading?
    ensures Flow(u)
  {
    assert StatusesIn(s.line) == InHand(u.reader) + StatusesIn(u.line);
    assert u.answered[u.pushed..] == InHand(u.reader) + StatusesIn(u.line);
  }

  /** With no status in hand the reader's own position does not matter to the flow. */
  lemma FlowIgnoresReader(s: State, u: State)
    requires Flow(s) && InHand(s.reader) == [] && InHand(u.reader) == []
    requires u == s.(reader := u.reader, posted := u.posted)
    ensures Flow(u)
  {
  }

  lemma PacketKeepsFlow(s: State, found: Option<nat>, u: State)
    requires ReaderNext(s, found) == Some(u)
    requires Flow(s) && (s.reader.PacketFound? || s.reader.PacketCallback? || s.reader.PacketPosting?)
    ensures Flow(u)
  {
    FlowIgnoresReader(s, u);
  }

  lemma DoneKeepsFlow(s: State, found: Option<nat>, u: State)
    requires ReaderNext(s, found) == Some(u)
    requires Flow(s)
    requires s.reader.DoneTest? || s.reader.DoneCallback? || s.reader.DoneData? || s.reader.DonePosting?
    ensures Flow(u)
  {
    InFlight(s);
    assert InHand(u.reader) == [Done];
  }

  lemma AbortKeepsFlow(s: State, found: Option<nat>, u: State)
    requires ReaderNext(s, found) == Some(u)
    requires Flow(s)
    requires || s.reader.AbortTest? || s.reader.AbortData? || s.reader.AbortCallback?
             || s.reader.AbortPosting? || s.reader.AbortClearing?
    ensures Flow(u)
  {
    InFlight(s);
    assert InHand(u.reader) == [Abort];
  }

  lemma PushKeepsFlow(s: State, found: Option<nat>, u: State)
    requires ReaderNext(s, found) == Some(u)
    requires Flow(s) && s.reader.PushingStatus?
    ensures Flow(u)
  {
    InFlight(s);
    assert u.answered[u.pushed..] == [];
  }

  lemma ReaderKeepsFlow(s: State, found: Option<nat>, u: State)
    requires ReaderNext(s, found) == Some(u)
    requires Flow(s)
    ensures Flow(u)
  {
    match s.reader {
      case Reading => ReceiveKeepsFlow(s, found, u);
      case PushingStatus(_) => PushKeepsFlow(s, found, u);
      case DoneTest => DoneKeepsFlow(s, found, u);
      case DoneCallback => DoneKeepsFlow(s, found, u);
      case DoneData(_) => DoneKeepsFlow(s, found, u);
      case DonePosting(_, _) => DoneKeepsFlow(s, found, u);
      case PacketFound(_, _, _) => PacketKeepsFlow(s, found, u);
      case PacketCallback(_, _, _, _) => PacketKeepsFlow(s, found, u);
      case PacketPosting(_) => PacketKeepsFlow(s, found, u);
      case _ => AbortKeepsFlow(s, found, u);
    }
  }

  // ----- The history is kept -----

  lemma CurrentsGrow(s: State, u: State, n: nat)
    requires Bounds(s) && Bounds(u) && Queued(s) <= Queued(u) && s.answered <= u.answered
    requires u.streams == s.streams && u.reader == s.reader && u.pushed == s.pushed && CurrentOk(s, n)
    ensures CurrentOk(u, n)
  {
    CurrentStable(Queued(s), s.answered, Queued(u), u.answered, CallbackSettled(s), n);
    CurrentStable(Queued(s), s.answered, Queued(u), u.answered, DataSettled(s), n);
  }

  /** A state whose queued and answered histories extend those of s keeps everything said about the past. */
  lemma HistoryGrows(s: State, u: State)
    requires Bounds(s) && History(s) && Bounds(u) && Queued(s) <= Queued(u) && s.answered <= u.answered
    requires u.streams == s.streams && u.posted == s.posted && u.reader == s.reader && u.pushed == s.pushed
    ensures History(u)
  {
    forall n
      ensures CurrentOk(u, n)
    {
      CurrentsGrow(s, u, n);
    }
    forall e | e in u.posted
      ensures PacketOk(u, e)
    {
      PacketStable(s, u, e);
    }
    if s.reader.PacketCallback? {
      CurrentStable(Queued(s), s.answered, Queued(u), u.answered, s.pushed, s.reader.n);
    } else if s.reader.PacketPosting? {
      PacketStable(s, u, s.reader.e);
    }
    ReportsStable(Queued(s), s.answered, Queued(u), u.answered, Reported(s));
  }

  lemma PacketStable(s: State, u: State, e: Posted)
    requires Queued(s) <= Queued(u) && s.answered <= u.answered && s.pushed <= u.pushed
    requires s.pushed <= |s.answered| <= |Queued(s)| && u.pushed <= |u.answered| <= |Queued(u)|
    requires PacketOk(s, e)
    ensures PacketOk(u, e)
  {
    if e.kind.PacketEvent? && e.kind.node.Some? {
      CurrentStable(Queued(s), s.answered, Queued(u), u.answered, e.at, e.kind.node.value);
    }
  }

  predicate SameCurrent(s: State, u: State, n: nat) {
    At(u.streams, n).callback == At(s.streams, n).callback && At(u.streams, n).data == At(s.streams, n).data
  }

  /** Reader and main steps that neither settle, report nor post anything. */
  lemma HistoryKept(s: State, u: State)
    requires Bounds(s) && History(s) && Bounds(u) && PacketInHandOk(u)
    requires Queued(u) == Queued(s) && u.answered == s.answered && u.posted == s.posted && s.pushed <= u.pushed
    requires CallbackSettled(u) == CallbackSettled(s) && DataSettled(u) == DataSettled(s) && Reported(u) == Reported(s)
    requires u.streams == s.streams
    ensures History(u)
  {
    forall n
      ensures CurrentOk(u, n)
    {
      assert CurrentOk(s, n);
    }
    forall e | e in u.posted
      ensures PacketOk(u, e)
    {
      assert PacketOk(s, e);
    }
  }

  /** Writer steps: they touch no current field. */
  lemma HistoryKeptByWriter(s: State, u: State)
    requires Bounds(s) && History(s) && Bounds(u)
    requires Queued(u) == Queued(s) && u.answered == s.answered && u.posted == s.posted
    requires u.pushed == s.pushed && u.reader == s.reader
    requires forall n :: SameCurrent(s, u, n)
    ensures History(u)
  {
    forall n
      ensures CurrentOk(u, n)
    {
      assert CurrentOk(s, n) && SameCurrent(s, u, n);
    }
    forall e | e in u.posted
      ensures PacketOk(u, e)
    {
      assert PacketOk(s, e);
    }
  }

  /** Steps that post nothing but settle the status in hand for some node. */
  lemma HistorySettles(s: State, u: State)
    requires Bounds(s) && History(s) && Bounds(u) && PacketInHandOk(u)
    requires Queued(u) == Queued(s) && u.answered == s.answered && u.posted == s.posted && s.pushed == u.pushed
    requires forall n :: CurrentOk(u, n)
    requires Reports(Queued(s), s.answered, Reported(u)) == Reports(Queued(s), s.answered, Reported(s))
    ensures History(u)
  {
    forall e | e in u.posted
      ensures PacketOk(u, e)
    {
      assert PacketOk(s, e);
    }
  }

  /** Steps that post one event. */
  lemma HistoryPosts(s: State, u: State, e: Posted)
    requires Bounds(s) && History(s) && Bounds(u) && PacketInHandOk(u) && PacketOk(u, e)
    requires Queued(u) == Queued(s) && u.answered == s.answered && u.posted == s.posted + [e] && s.pushed == u.pushed
    requires CallbackSettled(u) == CallbackSettled(s) && DataSettled(u) == DataSettled(s) && u.streams == s.streams
    requires Reports(Queued(s), s.answered, Reported(u)) ==
             Reports(Queued(s), s.answered, Reported(s)) + if e.kind.StatusEvent? then [e] else []
    ensures History(u)
  {
    forall n
      ensures CurrentOk(u, n)
    {
      assert CurrentOk(s, n);
    }
    forall f | f in u.posted
      ensures PacketOk(u, f)
    {
      if f != e {
        assert PacketOk(s, f);
      }
    }
    StatusEventsSnoc(s.posted, e);
  }

  // ----- Preservation, step by step -----

  lemma BridgeKeepsInv(s: State, i: Incoming, u: State)
    requires Step(s, BridgeSends(i)) == Some(u)
    requires Inv(s) && IsFair(s, BridgeSends(i))
    ensures Inv(u)
  {
    BridgeKeepsFlow(s, i, u);
    FlowBounds(u);
    HistoryGrows(s, u);
  }

  /** What a writer step leaves alone while no wait has run out. */
  lemma WriterFrame(s: State, u: State)
    requires WriterNext(s) == Some(u) && NotExpired(s.writer)
    ensures u.answered == s.answered && u.posted == s.posted && u.reader == s.reader && u.pushed == s.pushed
    ensures forall n :: SameCurrent(s, u, n)
  {
  }

  lemma WriterKeepsInv(s: State, u: State)
    requires WriterNext(s) == Some(u) && Inv(s)
    ensures Inv(u)
  {
    WriterKeepsFlow(s, u);
    FlowBounds(u);
    WriterFrame(s, u);
    WriterKeepsQueue(s, u);
    HistoryKeptByWriter(s, u);
  }

  lemma EnqueueKeepsInv(s: State, m: Message, u: State)
    requires Step(s, Enqueue(m)) == Some(u) && Inv(s)
    ensures Inv(u)
  {
    StepKeepsQueue(s, Enqueue(m), u);
    HistoryGrows(s, u);
  }

  lemma DispatchKeepsInv(s: State, u: State)
    requires Step(s, Dispatch) == Some(u) && Inv(s)
    ensures Inv(u)
  {
    assert u == s.(dispatched := s.dispatched + 1);
    DispatchKeepsFlow(s, u);
    HistoryKept(s, u);
  }

  lemma DispatchKeepsFlow(s: State, u: State)
    requires Flow(s) && u == s.(dispatched := s.dispatched + 1)
    ensures Flow(u) && Bounds(u)
  {
    FlowBounds(s);
  }

  lemma PacketFoundKeepsHistory(s: State, found: Option<nat>, u: State)
    requires ReaderNext(s, found) == Some(u)
    requires Bounds(s) && History(s) && Bounds(u) && s.reader.PacketFound?
    ensures History(u)
  {
    assert u == s.(reader := u.reader);
    assert PacketInHandOk(u) by {
      if s.reader.node.Some? {
        assert CurrentOk(s, s.reader.node.value);
      }
    }
    HistoryKept(s, u);
  }

  lemma PacketCallbackKeepsHistory(s: State, found: Option<nat>, u: State)
    requires ReaderNext(s, found) == Some(u)
    requires Bounds(s) && History(s) && Bounds(u) && s.reader.PacketCallback?
    ensures History(u)
  {
    assert CurrentOk(s, s.reader.n);
    HistoryKept(s, u);
  }

  lemma PacketPostKeepsHistory(s: State, found: Option<nat>, u: State)
    requires ReaderNext(s, found) == Some(u)
    requires Bounds(s) && History(s) && Bounds(u) && s.reader.PacketPosting?
    ensures History(u)
  {
    HistoryPosts(s, u, s.reader.e);
  }

  lemma ReceiveKeepsHistory(s: State, found: Option<nat>, u: State)
    requires ReaderNext(s, found) == Some(u) && Bounds(s) && History(s) && Bounds(u) && s.reader.Reading?
    ensures History(u)
  {
    HistoryKept(s, u);
  }

  /** The tests of nextnode that find a node. */
  lemma TestKeepsHistory(s: State, found: Option<nat>, u: State)
    requires ReaderNext(s, found) == Some(u) && Bounds(s) && History(s) && Bounds(u) && s.nextnode.Some?
    requires s.reader.DoneTest? || s.reader.AbortTest?
    ensures History(u)
  {
    HistoryKept(s, u);
  }

  lemma LoadKeepsHistory(s: State, found: Option<nat>, u: State)
    requires ReaderNext(s, found) == Some(u) && Bounds(s) && History(s) && Bounds(u)
    requires s.reader.AbortData? || s.reader.AbortCallback?
    ensures History(u)
  {
    HistoryKept(s, u);
  }

  lemma PushKeepsHistory(s: State, found: Option<nat>, u: State)
    requires ReaderNext(s, found) == Some(u) && Bounds(s) && History(s) && Bounds(u) && s.reader.PushingStatus?
    ensures History(u)
  {
    HistoryKept(s, u);
  }

  /** The message whose status is in hand, and what that status does to the current fields of a node. */
  lemma CurrentStep(s: State, n: nat)
    requires Flow(s) && InHand(s.reader) != []
    ensures s.pushed < |Queued(s)| && s.pushed < |s.answered|
    ensures var m := Queued(s)[s.pushed];
            var before := Current(Queued(s), s.answered, s.pushed, n);
            Current(Queued(s), s.answered, s.pushed + 1, n) ==
            if m.node != Some(n) then before
            else if InHand(s.reader) == [Done] then (m.callback, m.data)
            else (None, before.1)
  {
    InFlight(s);
  }

  lemma ReportStep(s: State)
    requires Flow(s) && InHand(s.reader) != []
    ensures s.pushed < |Queued(s)| && s.pushed < |s.answered|
    ensures var m := Queued(s)[s.pushed];
            Reports(Queued(s), s.answered, s.pushed + 1) ==
            Reports(Queued(s), s.answered, s.pushed) +
            if m.node.None? then [] else [Posted(StatusEvent(InHand(s.reader)[0]), m.callback, m.data, s.pushed)]
  {
    InFlight(s);
  }

  /** A message without a node: its status changes nothing but the counts. */
  lemma NodelessKeepsHistory(s: State, found: Option<nat>, u: State)
    requires ReaderNext(s, found) == Some(u) && Inv(s) && Bounds(u) && s.nextnode.None?
    requires s.reader.DoneTest? || s.reader.AbortTest?
    ensures History(u)
  {
    forall n
      ensures CurrentOk(u, n)
    {
      assert CurrentOk(s, n);
      NodelessStores(s, found, u, n);
    }
    NodelessReports(s, found, u);
    HistorySettles(s, u);
  }

  lemma NodelessReports(s: State, found: Option<nat>, u: State)
    requires Flow(s) && Bounds(s) && Bounds(u) && ReaderNext(s, found) == Some(u)
    requires s.nextnode.None? && (s.reader.DoneTest? || s.reader.AbortTest?)
    ensures u == s.(reader := u.reader) && PacketInHandOk(u)
    ensures Reports(Queued(s), s.answered, Reported(u)) == Reports(Queued(s), s.answered, Reported(s))
  {
    InFlight(s);
    ReportStep(s);
  }

  lemma NodelessStores(s: State, found: Option<nat>, u: State, n: nat)
    requires Flow(s) && Bounds(s) && Bounds(u) && ReaderNext(s, found) == Some(u) && CurrentOk(s, n)
    requires s.nextnode.None? && (s.reader.DoneTest? || s.reader.AbortTest?)
    ensures CurrentOk(u, n)
  {
    InFlight(s);
    CurrentStep(s, n);
  }

  lemma DoneCallbackStores(s: State, found: Option<nat>, u: State, n: nat)
    requires ReaderNext(s, found) == Some(u) && Flow(s) && Bounds(s) && Bounds(u)
    requires s.reader.DoneCallback? && CurrentOk(s, n)
    ensures CurrentOk(u, n)
  {
    InFlight(s);
    CurrentStep(s, n);
  }

  lemma DoneDataStores(s: State, found: Option<nat>, u: State, n: nat)
    requires ReaderNext(s, found) == Some(u) && Flow(s) && Bounds(s) && Bounds(u)
    requires s.reader.DoneData? && CurrentOk(s, n)
    ensures CurrentOk(u, n)
  {
    InFlight(s);
    CurrentStep(s, n);
  }

  lemma AbortStores(s: State, found: Option<nat>, u: State, n: nat)
    requires ReaderNext(s, found) == Some(u) && Flow(s) && Bounds(s) && Bounds(u)
    requires s.reader.AbortClearing? && CurrentOk(s, n)
    ensures CurrentOk(u, n)
  {
    InFlight(s);
    CurrentStep(s, n);
    assert s.nextnode == Queued(s)[s.pushed].node && u.streams == Cleared(s);
  }

  lemma DoneCallbackKeepsHistory(s: State, found: Option<nat>, u: State)
    requires ReaderNext(s, found) == Some(u) && Inv(s) && Bounds(u) && s.reader.DoneCallback?
    ensures History(u)
  {
    forall n
      ensures CurrentOk(u, n)
    {
      assert CurrentOk(s, n);
      DoneCallbackStores(s, found, u, n);
    }
    HistorySettles(s, u);
  }

  lemma DoneDataKeepsHistory(s: State, found: Option<nat>, u: State)
    requires ReaderNext(s, found) == Some(u) && Inv(s) && Bounds(u) && s.reader.DoneData?
    ensures History(u)
  {
    forall n
      ensures CurrentOk(u, n)
    {
      assert CurrentOk(s, n);
      DoneDataStores(s, found, u, n);
    }
    HistorySettles(s, u);
  }

  lemma AbortClearKeepsHistory(s: State, found: Option<nat>, u: State)
    requires ReaderNext(s, found) == Some(u) && Inv(s) && Bounds(u) && s.reader.AbortClearing?
    ensures History(u)
  {
    forall n
      ensures CurrentOk(u, n)
    {
      assert CurrentOk(s, n);
      AbortStores(s, found, u, n);
    }
    HistorySettles(s, u);
  }

  lemma PostKeepsHistory(s: State, found: Option<nat>, u: State)
    requires ReaderNext(s, found) == Some(u)
    requires Inv(s) && Bounds(u) && (s.reader.DonePosting? || s.reader.AbortPosting?)
    ensures History(u)
  {
    InFlight(s);
    ReportStep(s);
    var e := u.posted[|s.posted|];
    if s.reader.AbortPosting? {
      HistoryPosts(s, u, e);
    } else {
      HistoryPosts(s, u, e);
    }
  }

  lemma ReaderKeepsInv(s: State, found: Option<nat>, u: State)
    requires ReaderNext(s, found) == Some(u) && Inv(s)
    ensures Inv(u)
  {
    ReaderKeepsFlow(s, found, u);
    FlowBounds(u);
    match s.reader {
      case Reading => ReceiveKeepsHistory(s, found, u);
      case PacketFound(_, _, _) => PacketFoundKeepsHistory(s, found, u);
      case PacketCallback(_, _, _, _) => PacketCallbackKeepsHistory(s, found, u);
      case PacketPosting(_) => PacketPostKeepsHistory(s, found, u);
      case DoneCallback => DoneCallbackKeepsHistory(s, found, u);
      case DoneData(_) => DoneDataKeepsHistory(s, found, u);
      case DonePosting(_, _) => PostKeepsHistory(s, found, u);
      case AbortData => LoadKeepsHistory(s, found, u);
      case AbortCallback(_) => LoadKeepsHistory(s, found, u);
      case AbortPosting(_, _) => PostKeepsHistory(s, found, u);
      case AbortClearing => AbortClearKeepsHistory(s, found, u);
      case PushingStatus(_) => PushKeepsHistory(s, found, u);
      case _ =>
        if s.nextnode.Some? {
          TestKeepsHistory(s, found, u);
        } else {
          NodelessKeepsHistory(s, found, u);
        }
    }
  }

  lemma {:induction false} TimelyInv(actions: seq<Action>)
    requires IsTimely(actions) && Run(actions).Some?
    ensures Inv(Run(actions).value)
    decreases |actions|
  {
    if actions != [] {
      var front, a := actions[..|actions| - 1], actions[|actions| - 1];
      TimelyInv(front);
      var s, u := Run(front).value, Run(actions).value;
      match a {
        case WriterStep => WriterKeepsInv(s, u);
        case ReaderStep(found) => ReaderKeepsInv(s, found, u);
        case BridgeSends(i) => BridgeKeepsInv(s, i, u);
        case Enqueue(m) => EnqueueKeepsInv(s, m, u);
        case Dispatch => DispatchKeepsInv(s, u);
      }
    }
  }

  // ----- The claims -----

  /** No interleaving of a timely run has a data race: the comment in packet_writerThread is right. */
  lemma {:induction false} NoDataRace(actions: seq<Action>)
    requires IsTimely(actions) && Run(actions).Some?
    ensures !Race(Run(actions).value)
  {
    TimelyInv(actions);
    var s := Run(actions).value;
    if InHand(s.reader) != [] {
      InFlight(s);
    }
  }

  /** At most one message begun is unacknowledged, and the reader never follows a null nextnode. */
  lemma {:induction false} StopAndWait(actions: seq<Action>)
    requires IsTimely(actions) && Run(actions).Some?
    ensures var s := Run(actions).value;
            && s.completed <= s.pushed <= |s.answered| <= Started(s) <= s.completed + 1
            && (UsesNextNode(s.reader) ==> s.nextnode.Some?)
  {
    TimelyInv(actions);
    var s := Run(actions).value;
    if InHand(s.reader) != [] {
      InFlight(s);
    }
  }

  /**
    * Each message that has a node yields exactly one status event, in queue order, with the status the bridge gave
    * it and its own callback and data. The events posted so far are those of the messages whose status was handled,
    * so a message whose wait has ended has its event.
    */
  lemma {:induction false} OneReportEach(actions: seq<Action>)
    requires IsTimely(actions) && Run(actions).Some?
    ensures var s := Run(actions).value;
            && s.completed <= s.pushed <= Reported(s) <= |s.answered| <= |Enqueued(actions)|
            && StatusEvents(s.posted) == Reports(Enqueued(actions), s.answered, Reported(s))
  {
    TimelyInv(actions);
    QueueOrder(actions);
  }

  /** Event e carries the stream that was current for its node when e.at statuses had been handled. */
  lemma {:induction false} RepliesAreRouted(actions: seq<Action>, e: Posted)
    requires IsTimely(actions) && Run(actions).Some?
    requires e in Run(actions).value.posted && e.kind.PacketEvent?
    ensures var s, queue := Run(actions).value, Enqueued(actions);
            && e.at <= s.pushed <= |s.answered| <= |queue|
            && (e.kind.node.None? ==> e.callback.None?)
            && (e.kind.node.Some? ==> IsCurrent(queue, s.answered, e.at, e.kind.node.value, e.callback, e.data))
  {
    TimelyInv(actions);
    QueueOrder(actions);
    var s := Run(actions).value;
    assert PacketOk(s, e);
    if e.kind.node.Some? {
      CurrentMeaning(Queued(s), s.answered, e.at, e.kind.node.value);
    }
  }

  lemma {:induction false} StatusEventIsListed(posted: seq<Posted>, e: Posted)
    requires e in posted && e.kind.StatusEvent?
    ensures e in StatusEvents(posted)
    decreases |posted|
  {
    if posted[|posted| - 1] != e {
      StatusEventIsListed(posted[..|posted| - 1], e);
    }
  }

  lemma {:induction false} ReportIsRight(queued: seq<Message>, answered: seq<Status>, j: nat, e: Posted)
    requires j <= |answered| && j <= |queued| && e in Reports(queued, answered, j)
    ensures e.at < j && e == Posted(StatusEvent(answered[e.at]), queued[e.at].callback, queued[e.at].data, e.at)
    decreases j
  {
    if e.at != j - 1 || e in Reports(queued, answered, j - 1) {
      ReportIsRight(queued, answered, j - 1, e);
    }
  }

  /**
    * An acknowledgement is reported wrongly: e.at statuses came before it, so it is that of message e.at in queue
    * order, but the event has not got the stream of that message.
    */
  predicate IsWrong(s: State, e: Posted) {
    e.kind == StatusEvent(Done) &&
    (e.at >= |Queued(s)| || (e.callback, e.data) != (Queued(s)[e.at].callback, Queued(s)[e.at].data))
  }

  predicate Misreports(s: State) {
    exists e | e in s.posted :: IsWrong(s, e)
  }

  lemma {:induction false} NoMisreport(s: State)
    requires Inv(s)
    ensures !Misreports(s)
  {
    forall e | e in s.posted
      ensures !IsWrong(s, e)
    {
      if e.kind.StatusEvent? {
        StatusEventIsListed(s.posted, e);
        ReportIsRight(Queued(s), s.answered, Reported(s), e);
      }
    }
  }

  predicate Answered(queued: seq<Message>, answered: seq<Status>, i: nat, n: nat, status: Status)
    requires i < |answered| && i < |queued|
  {
    queued[i].node == Some(n) && answered[i] == status
  }

  /** Message d is the last one to node n, among the first j, that the bridge acknowledged. */
  predicate LastDone(queued: seq<Message>, answered: seq<Status>, j: nat, n: nat, d: nat)
    requires d < j <= |answered| && j <= |queued|
  {
    && Answered(queued, answered, d, n, Done)
    && forall i | d < i < j :: !Answered(queued, answered, i, n, Done)
  }

  /** The stream of the last acknowledged message to n, its callback cleared if a later message to n was aborted. */
  predicate IsCurrent(queued: seq<Message>, answered: seq<Status>, j: nat, n: nat, callback: Callback, data: nat)
    requires j <= |answered| && j <= |queued|
  {
    if exists d | 0 <= d < j :: LastDone(queued, answered, j, n, d) then
      exists d | 0 <= d < j :: LastDone(queued, answered, j, n, d) &&
        data == queued[d].data &&
        callback == if exists i | d < i < j :: Answered(queued, answered, i, n, Abort) then None
                    else queued[d].callback
    else callback.None? && data == 0
  }

  lemma {:induction false} CurrentMeaning(queued: seq<Message>, answered: seq<Status>, j: nat, n: nat)
    requires j <= |answered| && j <= |queued|
    ensures var (callback, data) := Current(queued, answered, j, n);
            IsCurrent(queued, answered, j, n, callback, data)
  {
    if j > 0 {
      CurrentMeaning(queued, answered, j - 1, n);
      if Answered(queued, answered, j - 1, n, Done) {
        assert LastDone(queued, answered, j, n, j - 1);
      } else {
        StillLastDone(queued, answered, j, n);
      }
    }
  }

  /** A message that is not an acknowledged one to n changes only whether n's callback was aborted. */
  lemma StillLastDone(queued: seq<Message>, answered: seq<Status>, j: nat, n: nat)
    requires 0 < j <= |answered| && j <= |queued| && !Answered(queued, answered, j - 1, n, Done)
    requires var (callback, data) := Current(queued, answered, j - 1, n);
             IsCurrent(queued, answered, j - 1, n, callback, data)
    ensures var (callback, data) := Current(queued, answered, j, n);
            IsCurrent(queued, answered, j, n, callback, data)
  {
    var (callback, data) := Current(queued, answered, j - 1, n);
    var last := j - 1;
    forall d | 0 <= d < last
      ensures LastDone(queued, answered, j, n, d) <==> LastDone(queued, answered, last, n, d)
    {
    }
    if exists d | 0 <= d < last :: LastDone(queued, answered, last, n, d) {
      var d :| 0 <= d < last && LastDone(queued, answered, last, n, d) && data == queued[d].data &&
               callback == if exists i | d < i < last :: Answered(queued, answered, i, n, Abort) then None
                           else queued[d].callback;
      assert LastDone(queued, answered, j, n, d);
      if queued[last].node == Some(n) {
        assert Answered(queued, answered, last, n, Abort);
      }
    }
  }
}
