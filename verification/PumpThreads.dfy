/** The bodies of the thread loops in src/packet.c, each tied to the statements of module Pump it consists of. */
module PumpThreads {
  import opened Bytes
  import opened Packets
  import opened Pump
  import opened PumpSafety
  import Serial

  /** k steps of the same kind in a row, with nothing in between. */
  function Times(s: State, a: Action, k: nat): Option<State>
    decreases k
  {
    if k == 0 then Some(s)
    else
      match Step(s, a)
      case None => None
      case Some(s1) => Times(s1, a, k - 1)
  }

  lemma Once(s: State, a: Action, u: State)
    requires Step(s, a) == Some(u)
    ensures Times(s, a, 1) == Some(u)
  {
    assert Times(u, a, 0) == Some(u);
  }

  lemma {:induction false} TimesConcat(s: State, a: Action, j: nat, t: State, k: nat, u: State)
    requires Times(s, a, j) == Some(t) && Times(t, a, k) == Some(u)
    ensures Times(s, a, j + k) == Some(u)
    decreases j
  {
    if j > 0 {
      TimesConcat(Step(s, a).value, a, j - 1, t, k, u);
    }
  }

  lemma TimesMore(s: State, a: Action, k: nat, t: State, u: State)
    requires Times(s, a, k) == Some(t) && Step(t, a) == Some(u)
    ensures Times(s, a, k + 1) == Some(u)
  {
    Once(t, a, u);
    TimesConcat(s, a, k, t, 1, u);
  }

  /** Statements of one turn of the writer up to the wait. */
  function SendLength(m: Message): nat {
    if m.node.Some? then 5 else 3
  }

  /** Statements of the reader after it has read message i, with nextnode set or not. */
  function TurnLength(i: Incoming, found: Option<nat>, next: bool): nat {
    match i
    case PacketIn(_, _) => if found.Some? then 3 else 2
    case StatusIn(Done) => if next then 5 else 2
    case StatusIn(Abort) => if next then 6 else 2
    case OtherIn => 0
  }

  /** Statements of one turn of the reader. */
  function ReadLength(s: State, found: Option<nat>): nat
    requires s.line != []
  {
    1 + TurnLength(s.line[0], found, s.nextnode.Some?)
  }

  lemma FirstStep(s: State, i: Incoming, rest: seq<Incoming>, found: Option<nat>)
    requires s.reader.Reading? && s.line == [i] + rest
    ensures Times(s, ReaderStep(found), 1) == Some(s.(line := rest, reader := Begun(i, found)))
  {
    assert s.line[1..] == rest;
    Once(s, ReaderStep(found), s.(line := rest, reader := Begun(i, found)));
  }

  // ----- Dispatch -----

  /** Who gets an event in the main loop. */
  datatype Target = Forward(callback: nat) | BusManagement | Listeners(node: nat) | Nobody

  predicate IsUnsolicited(k: Kind) {
    k.PacketEvent? && HasFlag(k.flags, FLAG_UNSOLICITED)
  }

  function TargetOf(e: Posted): Target {
    if e.callback.Some? && !IsUnsolicited(e.kind) then Forward(e.callback.value)
    else if e.kind.PacketEvent? && HasFlag(e.kind.flags, FLAG_MGT) then BusManagement
    else if e.kind.PacketEvent? && e.kind.node.Some? then Listeners(e.kind.node.value)
    else Nobody
  }

  /**
    * In a timely run a packet the node was asked for goes to the callback of the last message to that node that was
    * acknowledged before the packet was read. If a later one was aborted or there was none it is handled by the bus
    * management or, without the flag for that, given to the listeners of the node.
    */
  lemma RepliesReachTheirStream(actions: seq<Action>, e: Posted, n: nat)
    requires IsTimely(actions) && Run(actions).Some? && e in Run(actions).value.posted
    requires e.kind.PacketEvent? && e.kind.node == Some(n) && e.kind.flags / 32 % 2 == 0
    ensures var s, queue := Run(actions).value, Enqueued(actions);
            && e.at <= |s.answered| <= |queue|
            && exists callback, data ::
                 && IsCurrent(queue, s.answered, e.at, n, callback, data)
                 && (callback.Some? ==> TargetOf(e) == Forward(callback.value) && e.data == data)
                 && (callback.None? ==>
                       TargetOf(e) == if e.kind.flags / 16 % 2 == 1 then BusManagement else Listeners(n))
  {
    RepliesAreRouted(actions, e);
    assert IsCurrent(Enqueued(actions), Run(actions).value.answered, e.at, n, e.callback, e.data);
  }

  // ----- The line -----

  function Payloads(messages: seq<Message>): (r: seq<seq<byte>>)
    ensures |r| == |messages| && forall i | 0 <= i < |messages| :: r[i] == messages[i].bytes
  {
    seq(|messages|, i requires 0 <= i < |messages| => messages[i].bytes)
  }

  /** packet_streamPacket made the message out of the packet. */
  predicate Carries(m: Message, p: Packet) {
    |p.data| <= DATA_LEN && exists cls: byte :: m.bytes == Packed(p, cls)
  }

  /** From the queue to the bridge: what it decodes is the packets queued first, complete and in queue order. */
  lemma {:induction false} BridgeReadsQueue(actions: seq<Action>, packets: seq<Packet>, d: Serial.Decoder)
    requires Run(actions).Some? && !d.escaped && Serial.InBounds(d)
    requires |packets| == |Enqueued(actions)|
    requires forall i | 0 <= i < |packets| :: Carries(Enqueued(actions)[i], packets[i])
    ensures var written := Run(actions).value.written;
            var line := Serial.Frames(Payloads(written));
            var (frames, aborted) := Serial.Delivered(d, line);
            && Serial.Fits(d, line) && !aborted && |frames| == |written| <= |packets|
            && forall i | 0 <= i < |frames| ::
                 var p := packets[i];
                 Unpacked(frames[i]) == Some(Received(HOST, p.dest, Masked(p.flags), p.data))
  {
    QueueOrder(actions);
    var written := Run(actions).value.written;
    forall i | 0 <= i < |written|
      ensures HEADER_LEN <= |written[i].bytes| <= Serial.PACKET_LEN
      ensures var p := packets[i];
              Unpacked(written[i].bytes) == Some(Received(HOST, p.dest, Masked(p.flags), p.data))
    {
      assert written[i] == Enqueued(actions)[i] && Carries(written[i], packets[i]);
      PackedUnpacks(written[i].bytes, packets[i]);
    }
    Serial.RoundTrip(d, Payloads(written));
  }

  lemma PackedUnpacks(bytes: seq<byte>, p: Packet)
    requires |p.data| <= DATA_LEN && exists cls: byte :: bytes == Packed(p, cls)
    ensures HEADER_LEN <= |bytes| <= HEADER_LEN + DATA_LEN
    ensures Unpacked(bytes) == Some(Received(HOST, p.dest, Masked(p.flags), p.data))
  {
    assert bytes[HEADER_LEN..] == p.data;
  }

  lemma {:induction false} FramesSnoc(messages: seq<seq<byte>>, m: seq<byte>)
    ensures Serial.Frames(messages + [m]) == Serial.Frames(messages) + Serial.Frame(m)
  {
    var more := messages + [m];
    if messages == [] {
      assert more[0] == m && more[1..] == [];
      assert Serial.Frames(more[1..]) == [];
    } else {
      assert more[0] == messages[0] && more[1..] == messages[1..] + [m];
      FramesSnoc(messages[1..], m);
    }
  }

  // ----- Messages from the bridge -----

  /** The first byte of a message. */
  const PACKET_PACKET: byte := 80
  const PACKET_DONE: byte := 83
  const PACKET_ABORT: byte := 65

  /**
    * The switch of packet_readerThread. The packet is copied into fresh memory, so the flags of one that is too short
    * to have any are the byte that was there before.
    */
  function Decoded(message: seq<byte>, junk: byte): Incoming {
    if message == [] then OtherIn
    else if message[0] == PACKET_PACKET then PacketIn(if |message| > 3 then message[3] else junk, message[1..])
    else if message[0] == PACKET_DONE then StatusIn(Done)
    else if message[0] == PACKET_ABORT then StatusIn(Abort)
    else OtherIn
  }

  /** 'S' acknowledges, 'A' aborts, after 'P' comes a packet whose third byte is its flags; the rest is ignored. */
  lemma FirstByteDecides(kind: char, rest: seq<byte>, junk: byte)
    requires kind as int < 128
    ensures var i := Decoded([Ascii(kind)] + rest, junk);
            && (i == StatusIn(Done) <==> kind == 'S') && (i == StatusIn(Abort) <==> kind == 'A')
            && (i.PacketIn? <==> kind == 'P') && (kind == 'P' ==> i.payload == rest)
            && (kind == 'P' && |rest| >= 3 ==> i.flags == rest[2])
            && (i.OtherIn? <==> kind !in {'S', 'A', 'P'})
  {
    assert ([Ascii(kind)] + rest)[1..] == rest;
  }

  /** Messages decoded one after the other; `read` is how many came before them. */
  function Incomings(messages: seq<seq<byte>>, junk: nat -> byte, read: nat): (r: seq<Incoming>)
    ensures |r| == |messages|
    ensures forall i | 0 <= i < |messages| :: r[i] == Decoded(messages[i], junk(read + i))
  {
    seq(|messages|, i requires 0 <= i < |messages| => Decoded(messages[i], junk(read + i)))
  }

  lemma IncomingsShift(message: seq<byte>, rest: seq<seq<byte>>, junk: nat -> byte, read: nat)
    ensures Incomings([message] + rest, junk, read) == [Decoded(message, junk(read))] + Incomings(rest, junk, read + 1)
  {
    var all, tail := Incomings([message] + rest, junk, read), Incomings(rest, junk, read + 1);
    forall i | 0 < i < |all|
      ensures all[i] == tail[i - 1]
    {
      assert ([message] + rest)[i] == rest[i - 1] && read + i == read + 1 + (i - 1);
    }
  }

  lemma IncomingsSnoc(messages: seq<seq<byte>>, m: seq<byte>, junk: nat -> byte, read: nat)
    ensures Incomings(messages + [m], junk, read) ==
            Incomings(messages, junk, read) + [Decoded(m, junk(read + |messages|))]
  {
  }

  /** Reading takes the first of the messages that are there and leaves the others. */
  lemma ReadTakesFirst(d: Serial.Decoder, rx: seq<byte>, junk: nat -> byte, read: nat)
    returns (message: seq<byte>, d1: Serial.Decoder, rest: seq<byte>)
    requires Serial.Delivered(d, rx).0 != []
    ensures Serial.Read(d, rx) == (Serial.Message(message), d1, rest) && 1 <= |message| <= Serial.PACKET_LEN
    ensures Serial.IsSettled(d, rx) ==> Serial.IsSettled(d1, rest)
    ensures Incomings(Serial.Delivered(d, rx).0, junk, read) ==
            [Decoded(message, junk(read))] + Incomings(Serial.Delivered(d1, rest).0, junk, read + 1)
  {
    d1, rest := Serial.Read(d, rx).1, Serial.Read(d, rx).2;
    message := Serial.Read(d, rx).0.data;
    IncomingsShift(message, Serial.Delivered(d1, rest).0, junk, read);
    if Serial.IsSettled(d, rx) {
      Serial.ReadStaysSettled(d, rx);
    }
  }

  /** From the bridge to the reader: what it gets out of the frames is the messages decoded, all and in order. */
  lemma ReaderHearsBridge(d: Serial.Decoder, messages: seq<seq<byte>>, junk: nat -> byte)
    requires !d.escaped && Serial.InBounds(d)
    requires forall m :: m in messages ==> 1 <= |m| <= Serial.PACKET_LEN
    ensures var heard := Incomings(Serial.Delivered(d, Serial.Frames(messages)).0, junk, 0);
            && Serial.Fits(d, Serial.Frames(messages)) && |heard| == |messages|
            && forall i | 0 <= i < |messages| :: heard[i] == Decoded(messages[i], junk(i))
  {
    Serial.RoundTrip(d, messages);
  }

  // ----- The threads -----

  class PacketPump {
    const serial: Serial.SerialLine
    var outq: seq<Message>
    var statusq: seq<Status>
    var nextnode: Option<nat>
    var streams: Streams
    var posted: seq<Posted>
    var dispatched: nat
    var waiting: bool
    const junk: nat -> byte
    ghost var line: seq<Incoming>
    var read: nat
    ghost var written: seq<Message>
    ghost var answered: seq<Status>
    ghost var completed: nat
    ghost var timeouts: nat
    var pushed: nat

    constructor (junk: nat -> byte)
      ensures Valid() && IsSettled() && View() == INIT && fresh(serial) && fresh(serial.buffer)
    {
      this.junk := junk;
      serial := new Serial.SerialLine();
      read := 0;
      outq, statusq, line, posted, written, answered := [], [], [], [], [], [];
      nextnode, streams := None, map[];
      dispatched, pushed, completed, timeouts := 0, 0, 0, 0;
      waiting := false;
    }

    /** The line carries one frame for each message written, in that order, and brings the messages still to be read. */
    ghost predicate Valid()
      reads this, serial, serial.buffer
    {
      && serial.Valid() && serial.tx == Serial.Frames(Payloads(written))
      && line == Incomings(Serial.Delivered(serial.View(), serial.rx).0, junk, read)
    }

    /** So far nothing but whole frames of 1..50 bytes has come in. */
    ghost predicate IsSettled()
      requires serial.Valid()
      reads this, serial, serial.buffer
    {
      Serial.IsSettled(serial.View(), serial.rx)
    }

    /** The state with the two threads at the statements given. */
    ghost function Midway(writer: Writer, reader: Reader): State
      reads this
    {
      State(outq, statusq, line, nextnode, streams, posted, dispatched, writer, reader,
            written, answered, pushed, completed, timeouts)
    }

    /** The state between turns: the reader is about to read, the writer about to pop or waiting for a status. */
    ghost function View(): State
      reads this
    {
      Midway(if waiting then Waiting else Popping, Reading)
    }

    /** packet_streamPacket: the packet goes out with source 1 and only the MGT and NOACK flags. */
    method StreamPacket(n: Option<nat>, p: Packet, cls: byte, callback: Callback, data: nat)
      requires Valid() && |p.data| <= DATA_LEN
      modifies this
      ensures Valid()
      ensures Step(old(View()), Enqueue(Message(n, callback, data, Packed(p, cls)))) == Some(View())
    {
      var bytes := [HOST, p.dest, Masked(p.flags), cls, ToByte(|p.data|)] + p.data;
      outq := outq + [Message(n, callback, data, bytes)];
    }

    /** packet_writerThread from g_async_queue_pop to serial_writeMessage. */
    method WriterSends()
      requires Valid() && !waiting && outq != []
      modifies this, serial`tx
      ensures Valid() && written == old(written) + [old(outq[0])]
      ensures Times(old(View()), WriterStep, SendLength(old(outq[0]))) == Some(View())
    {
      ghost var s := View();
      var msg := outq[0];
      outq := outq[1..];
      ghost var t := Midway(SettingNode(msg), Reading);
      Once(s, WriterStep, t);
      SetNext(msg);
      ghost var u := Midway(Writing(msg), Reading);
      TimesConcat(s, WriterStep, 1, t, SendLength(msg) - 2, u);
      Write(msg);
      TimesMore(s, WriterStep, SendLength(msg) - 1, u, View());
    }

    /** nextnode and, if the message has a node, its next fields. */
    method SetNext(msg: Message)
      modifies `nextnode, `streams
      ensures Times(old(Midway(SettingNode(msg), Reading)), WriterStep, SendLength(msg) - 2) ==
              Some(Midway(Writing(msg), Reading))
    {
      ghost var s := Midway(SettingNode(msg), Reading);
      nextnode := msg.node;
      ghost var t := s.(nextnode := msg.node, writer := if msg.node.Some? then SettingCallback(msg) else Writing(msg));
      Once(s, WriterStep, t);
      if msg.node.Some? {
        var n := msg.node.value;
        streams := streams[n := At(streams, n).(nextCallback := msg.callback)];
        ghost var u := t.(streams := streams, writer := SettingData(msg));
        TimesMore(s, WriterStep, 1, t, u);
        streams := streams[n := At(streams, n).(nextData := msg.data)];
        TimesMore(s, WriterStep, 2, u, u.(streams := streams, writer := Writing(msg)));
      }
    }

    /** serial_writeMessage puts one more frame on the line; after it the writer waits. */
    method Write(msg: Message)
      requires Valid()
      modifies `written, `waiting, serial`tx
      ensures Valid() && waiting && written == old(written) + [msg]
      ensures Step(old(Midway(Writing(msg), Reading)), WriterStep) == Some(Midway(Waiting, Reading))
    {
      serial.WriteMessage(msg.bytes);
      FramesSnoc(Payloads(written), msg.bytes);
      assert Payloads(written + [msg]) == Payloads(written) + [msg.bytes];
      written := written + [msg];
      waiting := true;
    }

    /** packet_writerThread from g_async_queue_timed_pop to the end of the loop body. */
    method WriterWaits()
      requires Valid() && waiting
      modifies `completed, `waiting, `statusq, `timeouts, `posted, `streams
      ensures Valid() && written == old(written)
      ensures old(statusq) != [] ==> Step(old(View()), WriterStep) == Some(View())
      ensures old(statusq) == [] ==>
                Times(TimeoutNext(old(View())).value, WriterStep, if nextnode.Some? then 5 else 1) == Some(View())
    {
      if statusq != [] {
        TakeStatus();
      } else {
        RunOut();
        GiveUp();
      }
    }

    method TakeStatus()
      requires waiting && statusq != []
      modifies `completed, `waiting, `statusq
      ensures !waiting && WriterNext(old(View())) == Some(View())
    {
      statusq := statusq[1..];
      completed := completed + 1;
      waiting := false;
    }

    /** g_async_queue_timed_pop comes back with NULL. */
    method RunOut()
      requires waiting && statusq == []
      modifies `completed, `waiting, `timeouts
      ensures !waiting && TimeoutNext(old(View())) == Some(Midway(Expired, Reading))
    {
      completed := completed + 1;
      timeouts := timeouts + 1;
      waiting := false;
    }

    /** What follows a timeout: if nextnode is set, its stream gets an abort and is cleared. */
    method GiveUp()
      modifies `posted, `streams
      ensures Times(old(Midway(Expired, Reading)), WriterStep, if nextnode.Some? then 5 else 1) ==
              Some(Midway(Popping, Reading))
    {
      ghost var s, a := Midway(Expired, Reading), WriterStep;
      ghost var t := s.(writer := if nextnode.Some? then ExpiredData else Popping);
      Once(s, a, t);
      if nextnode.Some? {
        var n := nextnode.value;
        var data := At(streams, n).nextData;
        ghost var u := t.(writer := ExpiredCallback(data));
        TimesMore(s, a, 1, t, u);
        var callback := At(streams, n).nextCallback;
        t := u.(writer := ExpiredPosting(callback, data));
        TimesMore(s, a, 2, u, t);
        posted := posted + [Posted(StatusEvent(Abort), callback, data, pushed)];
        u := t.(posted := posted, writer := Clearing);
        TimesMore(s, a, 3, t, u);
        streams := streams[n := At(streams, n).(callback := None, nextCallback := None)];
        TimesMore(s, a, 4, u, u.(streams := streams, writer := Popping));
      }
    }

    /** One more message of the bridge comes in. */
    method Arrive(message: seq<byte>)
      requires Valid() && IsSettled() && 1 <= |message| <= Serial.PACKET_LEN
      modifies `line, `answered, serial`rx
      ensures Valid() && IsSettled()
      ensures Step(old(View()), BridgeSends(Decoded(message, junk(read + |old(line)|)))) == Some(View())
    {
      Serial.FrameArrives(serial.View(), serial.rx, message);
      IncomingsSnoc(Serial.Delivered(serial.View(), serial.rx).0, message, junk, read);
      ghost var i := Decoded(message, junk(read + |line|));
      serial.rx := serial.rx + Serial.Frame(message);
      line := line + [i];
      answered := answered + (if i.StatusIn? then [i.status] else []);
    }

    /** serial_readMessage hands the first message of the line to the reader. */
    method Receive() returns (message: seq<byte>)
      requires Valid() && line != [] && Serial.Fits(serial.View(), serial.rx)
      modifies `line, `read, serial`fill, serial`escaped, serial`rx, serial.buffer
      ensures Valid() && (old(IsSettled()) ==> IsSettled())
      ensures 1 <= |message| <= Serial.PACKET_LEN
      ensures read == old(read) + 1 && old(line) == [Decoded(message, junk(old(read)))] + line
    {
      ghost var first, d1, rest := ReadTakesFirst(serial.View(), serial.rx, junk, read);
      var result := serial.ReadMessage();
      assert serial.View() == d1 && serial.rx == rest;
      message := result.data;
      read := read + 1;
      line := Incomings(Serial.Delivered(d1, rest).0, junk, read);
    }

    /** One turn of packet_readerThread; `found` is the node with the source address of a packet. */
    method ReaderReads(found: Option<nat>)
      requires Valid() && line != [] && Serial.Fits(serial.View(), serial.rx)
      modifies this, serial`fill, serial`escaped, serial`rx, serial.buffer
      ensures Valid() && written == old(written) && (old(IsSettled()) ==> IsSettled())
      ensures Times(old(View()), ReaderStep(found), ReadLength(old(View()), found)) == Some(View())
    {
      ghost var s, w := View(), View().writer;
      var before := junk(read);
      var message := Receive();
      ghost var i := Decoded(message, before);
      ghost var t := Midway(w, Begun(i, found));
      FirstStep(s, i, line, found);
      Handle(message, before, found, w);
      TimesConcat(s, ReaderStep(found), 1, t, TurnLength(i, found, nextnode.Some?), View());
    }

    /** The switch on the first byte of the message. */
    method Handle(message: seq<byte>, before: byte, found: Option<nat>, ghost w: Writer)
      requires message != []
      modifies `streams, `posted, `statusq, `pushed
      ensures var i := Decoded(message, before);
              Times(old(Midway(w, Begun(i, found))), ReaderStep(found), TurnLength(i, found, nextnode.Some?)) ==
              Some(Midway(w, Reading))
    {
      if message[0] == PACKET_PACKET {
        var flags := if |message| > 3 then message[3] else before;
        ReadPacket(flags, message[1..], found, w);
      } else if message[0] == PACKET_DONE {
        ReadDone(found, w);
      } else if message[0] == PACKET_ABORT {
        ReadAbort(found, w);
      }
    }

    method ReadPacket(flags: byte, payload: seq<byte>, found: Option<nat>, ghost w: Writer)
      modifies `posted
      ensures Times(old(Midway(w, PacketFound(flags, payload, found))), ReaderStep(found), if found.Some? then 3 else 2)
              == Some(Midway(w, Reading))
    {
      ghost var s, a := Midway(w, PacketFound(flags, payload, found)), ReaderStep(found);
      var callback, data := None, 0;
      ghost var k, t := 0, s;
      if found.Some? {
        callback := At(streams, found.value).callback;
        k, t := 1, s.(reader := PacketCallback(flags, payload, found.value, callback));
        Once(s, a, t);
        data := At(streams, found.value).data;
      }
      var ps := Posted(PacketEvent(flags, payload, found), callback, data, pushed);
      ghost var u := s.(reader := PacketPosting(ps));
      TimesMore(s, a, k, t, u);
      posted := posted + [ps];
      TimesMore(s, a, k + 1, u, u.(posted := posted, reader := Reading));
    }

    method ReadDone(found: Option<nat>, ghost w: Writer)
      modifies `streams, `posted, `statusq, `pushed
      ensures Times(old(Midway(w, DoneTest)), ReaderStep(found), if nextnode.Some? then 5 else 2) ==
              Some(Midway(w, Reading))
    {
      ghost var s, a := Midway(w, DoneTest), ReaderStep(found);
      ghost var k, t := 1, s.(reader := if nextnode.Some? then DoneCallback else PushingStatus(Done));
      Once(s, a, t);
      if nextnode.Some? {
        var n := nextnode.value;
        var callback := At(streams, n).nextCallback;
        streams := streams[n := At(streams, n).(callback := callback)];
        ghost var u := t.(streams := streams, reader := DoneData(callback));
        TimesMore(s, a, 1, t, u);
        var data := At(streams, n).nextData;
        streams := streams[n := At(streams, n).(data := data)];
        t := u.(streams := streams, reader := DonePosting(callback, data));
        TimesMore(s, a, 2, u, t);
        posted := posted + [Posted(StatusEvent(Done), callback, data, pushed)];
        k, u := 4, t.(posted := posted, reader := PushingStatus(Done));
        TimesMore(s, a, 3, t, u);
        t := u;
      }
      statusq := statusq + [Done];
      pushed := pushed + 1;
      TimesMore(s, a, k, t, t.(statusq := statusq, pushed := pushed, reader := Reading));
    }

    method ReadAbort(found: Option<nat>, ghost w: Writer)
      modifies `streams, `posted, `statusq, `pushed
      ensures Times(old(Midway(w, AbortTest)), ReaderStep(found), if nextnode.Some? then 6 else 2) ==
              Some(Midway(w, Reading))
    {
      ghost var s, a := Midway(w, AbortTest), ReaderStep(found);
      ghost var k, t := 1, s.(reader := if nextnode.Some? then AbortData else PushingStatus(Abort));
      Once(s, a, t);
      if nextnode.Some? {
        var n := nextnode.value;
        var data := At(streams, n).nextData;
        ghost var u := t.(reader := AbortCallback(data));
        TimesMore(s, a, 1, t, u);
        var callback := At(streams, n).nextCallback;
        t := u.(reader := AbortPosting(callback, data));
        TimesMore(s, a, 2, u, t);
        posted := posted + [Posted(StatusEvent(Abort), callback, data, pushed)];
        u := t.(posted := posted, reader := AbortClearing);
        TimesMore(s, a, 3, t, u);
        streams := streams[n := At(streams, n).(callback := None, nextCallback := None)];
        k, t := 5, u.(streams := streams, reader := PushingStatus(Abort));
        TimesMore(s, a, 4, u, t);
      }
      statusq := statusq + [Abort];
      pushed := pushed + 1;
      TimesMore(s, a, k, t, t.(statusq := statusq, pushed := pushed, reader := Reading));
    }

    /** packet_inpacket on the next event of the main loop. */
    method InPacket() returns (target: Target)
      requires Valid() && dispatched < |posted|
      modifies this
      ensures Valid()
      ensures Step(old(View()), Dispatch) == Some(View())
      ensures target == TargetOf(old(posted[dispatched]))
    {
      var ps := posted[dispatched];
      dispatched := dispatched + 1;
      if ps.callback.Some? && (!ps.kind.PacketEvent? || !HasFlag(ps.kind.flags, FLAG_UNSOLICITED)) {
        target := Forward(ps.callback.value);
      } else if ps.kind.PacketEvent? && HasFlag(ps.kind.flags, FLAG_MGT) {
        target := BusManagement;
      } else if ps.kind.PacketEvent? && ps.kind.node.Some? {
        target := Listeners(ps.kind.node.value);
      } else if !ps.kind.PacketEvent? {
        target := Nobody;
      } else if ps.kind.node.None? {
        target := Nobody;
      } else {
        // The source loops forever here.
        assert false;
      }
    }
  }
}
