/**
  * The packet pump of src/packet.c. A writer thread and a reader thread share the variable nextnode and four
  * fields of each node without a lock; they are modelled statement by statement, in every interleaving.
  */
module Pump {
  import opened Bytes

  // ----- Data -----

  /** A function pointer; None is NULL. */
  type Callback = Option<nat>

  /** struct messagestream: the message bytes, and the node, callback and user data of the stream. */
  datatype Message = Message(node: Option<nat>, callback: Callback, data: nat, bytes: seq<byte>)

  /** The four fields of struct node that the two threads share. */
  datatype Stream = Stream(nextCallback: Callback, nextData: nat, callback: Callback, data: nat)

  type Streams = map<nat, Stream>

  /** A node nobody has streamed to has all four fields zero. */
  function At(streams: Streams, n: nat): Stream {
    if n in streams then streams[n] else Stream(None, 0, None, 0)
  }

  datatype Status = Done | Abort

  /** A message from the bridge: a bus packet, a status, or anything the reader ignores. */
  datatype Incoming = PacketIn(flags: byte, payload: seq<byte>) | StatusIn(status: Status) | OtherIn

  datatype Kind = PacketEvent(flags: byte, payload: seq<byte>, node: Option<nat>) | StatusEvent(status: Status)

  /** struct packetstream as handed to g_idle_add; `at` is the number of statuses handled when it was filled. */
  datatype Posted = Posted(kind: Kind, callback: Callback, data: nat, at: nat)

  /** The next statement of packet_writerThread. */
  datatype Writer =
    | Popping
    | SettingNode(m: Message)
    | SettingCallback(m: Message)
    | SettingData(m: Message)
    | Writing(m: Message)
    | Waiting
    | Expired
    | ExpiredData
    | ExpiredCallback(data: nat)
    | ExpiredPosting(callback: Callback, data: nat)
    | Clearing

  /** The next statement of packet_readerThread. */
  datatype Reader =
    | Reading
    | PacketFound(flags: byte, payload: seq<byte>, node: Option<nat>)
    | PacketCallback(flags: byte, payload: seq<byte>, n: nat, callback: Callback)
    | PacketPosting(e: Posted)
    | DoneTest
    | DoneCallback
    | DoneData(callback: Callback)
    | DonePosting(callback: Callback, data: nat)
    | AbortTest
    | AbortData
    | AbortCallback(data: nat)
    | AbortPosting(callback: Callback, data: nat)
    | AbortClearing
    | PushingStatus(status: Status)

  /**
    * The shared state and both program counters. The last five fields record history: messages written, statuses
    * the bridge sent, statuses pushed by the reader, waits of the writer that ended, and how many of them timed out.
    */
  datatype State = State(
    outq: seq<Message>, statusq: seq<Status>, line: seq<Incoming>,
    nextnode: Option<nat>, streams: Streams, posted: seq<Posted>, dispatched: nat,
    writer: Writer, reader: Reader,
    written: seq<Message>, answered: seq<Status>, pushed: nat, completed: nat, timeouts: nat)

  const INIT := State([], [], [], None, map[], [], 0, Popping, Reading, [], [], 0, 0, 0)

  /** Steps of the main thread, the two threads, the clock and the bridge. */
  datatype Action =
    | Enqueue(m: Message)
    | WriterStep
    | Timeout
    | ReaderStep(found: Option<nat>)
    | BridgeSends(i: Incoming)
    | Dispatch

  // ----- Steps -----

  /** One statement of the writer; None while it is blocked. */
  function WriterNext(s: State): Option<State> {
    match s.writer
    case Popping =>
      if s.outq == [] then None else Some(s.(outq := s.outq[1..], writer := SettingNode(s.outq[0])))
    case SettingNode(m) =>
      Some(s.(nextnode := m.node, writer := if m.node.Some? then SettingCallback(m) else Writing(m)))
    case SettingCallback(m) =>
      if m.node.None? then None
      else
        var n := m.node.value;
        Some(s.(streams := s.streams[n := At(s.streams, n).(nextCallback := m.callback)], writer := SettingData(m)))
    case SettingData(m) =>
      if m.node.None? then None
      else
        var n := m.node.value;
        Some(s.(streams := s.streams[n := At(s.streams, n).(nextData := m.data)], writer := Writing(m)))
    case Writing(m) => Some(s.(written := s.written + [m], writer := Waiting))
    case Waiting =>
      if s.statusq == [] then None
      else Some(s.(statusq := s.statusq[1..], completed := s.completed + 1, writer := Popping))
    case Expired => Some(s.(writer := if s.nextnode.Some? then ExpiredData else Popping))
    case ExpiredData =>
      if s.nextnode.None? then None
      else Some(s.(writer := ExpiredCallback(At(s.streams, s.nextnode.value).nextData)))
    case ExpiredCallback(data) =>
      if s.nextnode.None? then None
      else Some(s.(writer := ExpiredPosting(At(s.streams, s.nextnode.value).nextCallback, data)))
    case ExpiredPosting(callback, data) =>
      Some(s.(posted := s.posted + [Posted(StatusEvent(Abort), callback, data, s.pushed)], writer := Clearing))
    case Clearing =>
      if s.nextnode.None? then None else Some(s.(streams := Cleared(s), writer := Popping))
  }

  /** nextnode->currentcallback = nextnode->nextcallback = NULL. */
  function Cleared(s: State): Streams
    requires s.nextnode.Some?
  {
    var n := s.nextnode.value;
    s.streams[n := At(s.streams, n).(callback := None, nextCallback := None)]
  }

  /** g_async_queue_timed_pop gives up on an empty queue. */
  function TimeoutNext(s: State): Option<State> {
    if s.writer.Waiting? && s.statusq == [] then
      Some(s.(completed := s.completed + 1, timeouts := s.timeouts + 1, writer := Expired))
    else None
  }

  /** Where a message takes the reader. */
  function Begun(i: Incoming, found: Option<nat>): Reader {
    match i
    case PacketIn(flags, payload) => PacketFound(flags, payload, found)
    case StatusIn(Done) => DoneTest
    case StatusIn(Abort) => AbortTest
    case OtherIn => Reading
  }

  /** One statement of the reader; `found` is what the node table answers for the source address of a packet. */
  function ReaderNext(s: State, found: Option<nat>): Option<State> {
    match s.reader
    case Reading =>
      if s.line == [] then None
      else Some(s.(line := s.line[1..], reader := Begun(s.line[0], found)))
    case PacketFound(flags, payload, None) =>
      Some(s.(reader := PacketPosting(Posted(PacketEvent(flags, payload, None), None, 0, s.pushed))))
    case PacketFound(flags, payload, Some(n)) =>
      Some(s.(reader := PacketCallback(flags, payload, n, At(s.streams, n).callback)))
    case PacketCallback(flags, payload, n, callback) =>
      var e := Posted(PacketEvent(flags, payload, Some(n)), callback, At(s.streams, n).data, s.pushed);
      Some(s.(reader := PacketPosting(e)))
    case PacketPosting(e) => Some(s.(posted := s.posted + [e], reader := Reading))
    case DoneTest => Some(s.(reader := if s.nextnode.Some? then DoneCallback else PushingStatus(Done)))
    case DoneCallback =>
      if s.nextnode.None? then None
      else
        var n := s.nextnode.value;
        var callback := At(s.streams, n).nextCallback;
        Some(s.(streams := s.streams[n := At(s.streams, n).(callback := callback)], reader := DoneData(callback)))
    case DoneData(callback) =>
      if s.nextnode.None? then None
      else
        var n := s.nextnode.value;
        var data := At(s.streams, n).nextData;
        Some(s.(streams := s.streams[n := At(s.streams, n).(data := data)], reader := DonePosting(callback, data)))
    case DonePosting(callback, data) =>
      var e := Posted(StatusEvent(Done), callback, data, s.pushed);
      Some(s.(posted := s.posted + [e], reader := PushingStatus(Done)))
    case AbortTest => Some(s.(reader := if s.nextnode.Some? then AbortData else PushingStatus(Abort)))
    case AbortData =>
      if s.nextnode.None? then None
      else Some(s.(reader := AbortCallback(At(s.streams, s.nextnode.value).nextData)))
    case AbortCallback(data) =>
      if s.nextnode.None? then None
      else Some(s.(reader := AbortPosting(At(s.streams, s.nextnode.value).nextCallback, data)))
    case AbortPosting(callback, data) =>
      var e := Posted(StatusEvent(Abort), callback, data, s.pushed);
      Some(s.(posted := s.posted + [e], reader := AbortClearing))
    case AbortClearing =>
      if s.nextnode.None? then None else Some(s.(streams := Cleared(s), reader := PushingStatus(Abort)))
    case PushingStatus(status) =>
      Some(s.(statusq := s.statusq + [status], pushed := s.pushed + 1, reader := Reading))
  }

  function Step(s: State, a: Action): Option<State> {
    match a
    case Enqueue(m) => Some(s.(outq := s.outq + [m]))
    case WriterStep => WriterNext(s)
    case Timeout => TimeoutNext(s)
    case ReaderStep(found) => ReaderNext(s, found)
    case BridgeSends(i) =>
      Some(s.(line := s.line + [i], answered := s.answered + (if i.StatusIn? then [i.status] else [])))
    case Dispatch => if s.dispatched < |s.posted| then Some(s.(dispatched := s.dispatched + 1)) else None
  }

  /** The state after a run, or None if one of its actions was not possible when it was due. */
  function Run(actions: seq<Action>): Option<State> {
    if actions == [] then Some(INIT)
    else
      match Run(actions[..|actions| - 1])
      case None => None
      case Some(s) => Step(s, actions[|actions| - 1])
  }

  // ----- Accounting, in every run -----

  /** The status the reader has taken off the line and not yet pushed to the writer. */
  function InHand(r: Reader): seq<Status> {
    match r
    case DoneTest | DoneCallback | DoneData(_) | DonePosting(_, _) => [Done]
    case AbortTest | AbortData | AbortCallback(_) | AbortPosting(_, _) | AbortClearing => [Abort]
    case PushingStatus(status) => [status]
    case _ => []
  }

  function StatusesIn(line: seq<Incoming>): seq<Status> {
    if line == [] then []
    else (if line[0].StatusIn? then [line[0].status] else []) + StatusesIn(line[1..])
  }

  /** Statements that dereference nextnode. */
  predicate UsesNextNode(r: Reader) {
    r.DoneCallback? || r.DoneData? || r.AbortData? || r.AbortCallback? || r.AbortClearing?
  }

  /** Tokens and waits add up, and each status sent was pushed, is in the reader's hand or is on the line. */
  predicate Accounts(s: State) {
    && s.completed + |s.statusq| == s.pushed + s.timeouts
    && |s.answered| == s.pushed + |InHand(s.reader)| + |StatusesIn(s.line)|
    && |s.written| == s.completed + (if s.writer.Waiting? then 1 else 0)
    && s.dispatched <= |s.posted|
  }

  /** Ended waits plus queued statuses are received statuses plus timeouts, with spurious and late ones allowed. */
  lemma {:induction false} StatusAccounting(actions: seq<Action>)
    requires Run(actions).Some?
    ensures Accounts(Run(actions).value)
    ensures var s := Run(actions).value; |s.written| - s.pushed <= 1 + s.timeouts
    decreases |actions|
  {
    if actions != [] {
      StatusAccounting(actions[..|actions| - 1]);
      AccountsKept(Run(actions[..|actions| - 1]).value, actions[|actions| - 1]);
    }
  }

  lemma AccountsKept(s: State, a: Action)
    requires Accounts(s) && Step(s, a).Some?
    ensures Accounts(Step(s, a).value)
  {
    match a {
      case BridgeSends(i) => StatusesInSnoc(s.line, i);
      case ReaderStep(found) => ReaderAccounts(s, found);
      case WriterStep => WriterAccounts(s);
      case _ =>
    }
  }

  lemma WriterAccounts(s: State)
    requires Accounts(s) && WriterNext(s).Some?
    ensures Accounts(WriterNext(s).value)
  {
  }

  lemma ReaderAccounts(s: State, found: Option<nat>)
    requires Accounts(s) && ReaderNext(s, found).Some?
    ensures Accounts(ReaderNext(s, found).value)
  {
    var u := ReaderNext(s, found).value;
    if s.reader.Reading? {
      assert u == s.(line := s.line[1..], reader := u.reader);
    } else if s.reader.PushingStatus? {
      assert u == s.(statusq := s.statusq + [s.reader.status], pushed := s.pushed + 1, reader := Reading);
    } else {
      TurnAccounts(s, found);
    }
  }

  /** Within a turn the reader keeps the status in its hand, and the queues are left alone. */
  lemma TurnAccounts(s: State, found: Option<nat>)
    requires ReaderNext(s, found).Some? && !s.reader.Reading? && !s.reader.PushingStatus?
    ensures var u := ReaderNext(s, found).value;
            && InHand(u.reader) == InHand(s.reader) && |u.posted| >= |s.posted|
            && u == s.(reader := u.reader, posted := u.posted, streams := u.streams)
  {
  }

  lemma {:induction false} StatusesInSnoc(line: seq<Incoming>, i: Incoming)
    ensures StatusesIn(line + [i]) == StatusesIn(line) + (if i.StatusIn? then [i.status] else [])
  {
    var more := line + [i];
    if line == [] {
      assert more[0] == i && more[1..] == [];
      assert StatusesIn(more[1..]) == [];
    } else {
      assert more[0] == line[0] && more[1..] == line[1..] + [i];
      StatusesInSnoc(line[1..], i);
    }
  }

  // ----- Data races -----

  datatype Location = NextNode | NextCallback(n: nat) | NextData(n: nat) | CurrentCallback(n: nat) | CurrentData(n: nat)

  /** What the next statement of a thread reads and writes of the shared variables. */
  datatype Access = Access(loads: set<Location>, stores: set<Location>)

  /** The fields of the node that nextnode points to. */
  function Pointed(s: State, callback: bool, current: bool): set<Location> {
    if s.nextnode.None? then {}
    else
      var n := s.nextnode.value;
      {if current then (if callback then CurrentCallback(n) else CurrentData(n))
       else (if callback then NextCallback(n) else NextData(n))}
  }

  function WriterAccess(s: State): Access {
    match s.writer
    case SettingNode(_) => Access({}, {NextNode})
    case SettingCallback(m) => Access({}, if m.node.Some? then {NextCallback(m.node.value)} else {})
    case SettingData(m) => Access({}, if m.node.Some? then {NextData(m.node.value)} else {})
    case Expired => Access({NextNode}, {})
    case ExpiredData => Access({NextNode} + Pointed(s, false, false), {})
    case ExpiredCallback(_) => Access({NextNode} + Pointed(s, true, false), {})
    case Clearing => Access({NextNode}, Pointed(s, true, true) + Pointed(s, true, false))
    case _ => Access({}, {})
  }

  function ReaderAccess(s: State): Access {
    match s.reader
    case PacketFound(_, _, Some(n)) => Access({CurrentCallback(n)}, {})
    case PacketCallback(_, _, n, _) => Access({CurrentData(n)}, {})
    case DoneTest => Access({NextNode}, {})
    case DoneCallback => Access({NextNode} + Pointed(s, true, false), Pointed(s, true, true))
    case DoneData(_) => Access({NextNode} + Pointed(s, false, false), Pointed(s, false, true))
    case AbortTest => Access({NextNode}, {})
    case AbortData => Access({NextNode} + Pointed(s, false, false), {})
    case AbortCallback(_) => Access({NextNode} + Pointed(s, true, false), {})
    case AbortClearing => Access({NextNode}, Pointed(s, true, true) + Pointed(s, true, false))
    case _ => Access({}, {})
  }

  /** Both threads are about to touch the same variable, and one of them to write it. */
  predicate Race(s: State) {
    var w, r := WriterAccess(s), ReaderAccess(s);
    w.stores * (r.loads + r.stores) != {} || r.stores * (w.loads + w.stores) != {}
  }
}
