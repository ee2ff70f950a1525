/** From the bus management over the packet queue and the serial line to the bridge. */
module EndToEnd {
  import opened Bytes
  import opened Packets
  import opened Nodes
  import opened BusMgt
  import opened Lifecycle
  import Serial
  import Pump
  import PumpSafety
  import PumpThreads

  /** packet_streamPacket takes the packet as it is: it fits, and it has no flag that is masked out. */
  predicate Passes(p: Packet) {
    |p.data| <= DATA_LEN && Masked(p.flags) == p.flags
  }

  predicate AllPass(packets: seq<Packet>) {
    forall p | p in packets :: Passes(p)
  }

  lemma {:induction false} GroupCommandsPass(adr: byte, groups: seq<int>, n: nat)
    requires n <= |groups|
    ensures AllPass(GroupCommands(adr, groups, n))
  {
    if n > 0 {
      GroupCommandsPass(adr, groups, n - 1);
    }
  }

  lemma GreetingPasses(n: Node, src: byte)
    ensures AllPass(Greeting(n, src))
  {
    GroupCommandsPass(ToByte(n.busadr), n.groups, |n.groups|);
  }

  lemma InvitationPasses(adr: byte, p: InPacket)
    requires WellFormed(p) && p.data[0] == DISCOVER
    ensures AllPass(Invitation(adr, p))
  {
  }

  /** Whatever the gateway answers to an event passes. */
  lemma AnswersPass(t: Table, timeout: int, e: Event)
    requires e.Arrived? ==> WellFormed(e.p)
    ensures var o := Next(t, timeout, e); o.Handled? ==> AllPass(o.sent)
  {
    if e.Arrived? && e.p.data[0] == DISCOVER {
      var registered := Register(t, PacketId(e.p), Ordinary, 0);
      if registered.Some? {
        var (t1, i) := registered.value;
        InvitationPasses(ToByte(t1[i].busadr), e.p);
      }
    } else if e.Arrived? && e.p.data[0] == IDENTIFY {
      var slot := ById(t, PacketId(e.p));
      if slot.Some? {
        GreetingPasses(t[slot.value], e.p.src);
      }
    } else if e.Arrived? && e.p.data[0] == BRIDGE_ID {
      BridgeAnswersPass(t, timeout, e.p);
    }
  }

  lemma BridgeAnswersPass(t: Table, timeout: int, p: InPacket)
    requires WellFormed(p) && p.data[0] == BRIDGE_ID
    ensures var o := HandleBridge(t, timeout, p); o.Handled? ==> AllPass(o.sent)
  {
    var registered := Register(t, PacketId(p), Kind.Bridge, BRIDGE);
    var t1 := if registered.Some? then registered.value.0 else t;
    var slot := ByBusAdr(t1, p.src);
    if slot.Some? {
      GreetingPasses(t1[slot.value], p.src);
    }
  }

  /** What the gateway queues in answer to event k of a run. */
  ghost function Answers(ts: seq<Table>, es: seq<Event>, timeout: int, bridge: seq<byte>, k: nat): seq<Packet>
    requires IsRun(ts, es, timeout, bridge) && k < |es|
  {
    assert Legal(es[k], bridge) && StepsTo(ts[k], timeout, es[k], ts[k + 1]);
    Next(ts[k], timeout, es[k]).sent
  }

  lemma AnswersPassAt(ts: seq<Table>, es: seq<Event>, timeout: int, bridge: seq<byte>, k: nat)
    requires IsRun(ts, es, timeout, bridge) && k < |es|
    ensures AllPass(Answers(ts, es, timeout, bridge, k))
  {
    assert Legal(es[k], bridge) && StepsTo(ts[k], timeout, es[k], ts[k + 1]);
    AnswersPass(ts[k], timeout, es[k]);
  }

  /** The packets the gateway queues in the first n events of a run. */
  ghost function SentBy(ts: seq<Table>, es: seq<Event>, timeout: int, bridge: seq<byte>, n: nat): seq<Packet>
    requires IsRun(ts, es, timeout, bridge) && n <= |es|
  {
    if n == 0 then []
    else SentBy(ts, es, timeout, bridge, n - 1) + Answers(ts, es, timeout, bridge, n - 1)
  }

  lemma {:induction false} SentPasses(ts: seq<Table>, es: seq<Event>, timeout: int, bridge: seq<byte>, n: nat)
    requires IsRun(ts, es, timeout, bridge) && n <= |es|
    ensures AllPass(SentBy(ts, es, timeout, bridge, n))
  {
    if n > 0 {
      var before, last := SentBy(ts, es, timeout, bridge, n - 1), Answers(ts, es, timeout, bridge, n - 1);
      SentPasses(ts, es, timeout, bridge, n - 1);
      AnswersPassAt(ts, es, timeout, bridge, n - 1);
      ConcatPasses(before, last);
      assert SentBy(ts, es, timeout, bridge, n) == before + last;
    }
  }

  lemma ConcatPasses(a: seq<Packet>, b: seq<Packet>)
    requires AllPass(a) && AllPass(b)
    ensures AllPass(a + b)
  {
  }

  /**
    * When the messages queued are the packets of the bus management, the bridge decodes from the line the first of
    * them, one per message written, in the order the gateway sent them and with the flags it gave them.
    */
  lemma {:induction false} BridgeReadsCommands(ts: seq<Table>, es: seq<Event>, timeout: int, bridge: seq<byte>, n: nat,
                                               actions: seq<Pump.Action>, d: Serial.Decoder)
    requires IsRun(ts, es, timeout, bridge) && n <= |es|
    requires Pump.Run(actions).Some? && !d.escaped && Serial.InBounds(d)
    requires var sent, queue := SentBy(ts, es, timeout, bridge, n), PumpSafety.Enqueued(actions);
             |queue| == |sent| && forall i | 0 <= i < |sent| :: PumpThreads.Carries(queue[i], sent[i])
    ensures var sent, written := SentBy(ts, es, timeout, bridge, n), Pump.Run(actions).value.written;
            var (frames, aborted) := Serial.Delivered(d, Serial.Frames(PumpThreads.Payloads(written)));
            && !aborted && |frames| == |written| <= |sent|
            && forall i | 0 <= i < |frames| ::
                 Unpacked(frames[i]) == Some(Received(HOST, sent[i].dest, sent[i].flags, sent[i].data))
  {
    var sent := SentBy(ts, es, timeout, bridge, n);
    SentPasses(ts, es, timeout, bridge, n);
    PumpThreads.BridgeReadsQueue(actions, sent, d);
    forall i | 0 <= i < |sent|
      ensures Masked(sent[i].flags) == sent[i].flags
    {
      assert sent[i] in sent;
    }
  }
}
