/** Registration, the bus management handshake and the keep-alive tick (src/busmgt.c, src/mgt.c). */
module BusMgt {
  import opened Bytes
  import opened Nodes
  import opened Packets

  const FIRST_ADR := 3
  const LAST_ADR := 254
  const ADDRESSES := 252

  // ----- Address allocation -----

  function FreeAdrFrom(t: Table, adr: int): (r: int)
    requires FIRST_ADR <= adr <= LAST_ADR + 1
    ensures r != -1 ==> adr <= r <= LAST_ADR && ByBusAdr(t, r).None?
    ensures forall a | adr <= a < (if r == -1 then LAST_ADR + 1 else r) :: ByBusAdr(t, a).Some?
    decreases LAST_ADR + 1 - adr
  {
    if adr > LAST_ADR then -1
    else if ByBusAdr(t, adr).None? then adr
    else FreeAdrFrom(t, adr + 1)
  }

  /** The least address no active node holds, or -1. */
  function FreeAdr(t: Table): int {
    FreeAdrFrom(t, FIRST_ADR)
  }

  // ----- Registration -----

  /** The slot for an id and the table that has it: the known one, or the first free slot, wiped and taken. */
  function SlotFor(t: Table, id: seq<byte>): (r: Option<(Table, nat)>)
    ensures r.Some? ==> r.value.1 < |t| == |r.value.0| && !r.value.0[r.value.1].free
  {
    var known := ById(t, id);
    if known.Some? then Some((t, known.value))
    else
      match FreeSlot(t)
      case None => None
      case Some(i) => Some((t[i := Wiped(t[i]).(id := id, free := false)], i))
  }

  /** The second half of mgt_registerNode: address, type and activity. */
  function Assigned(t: Table, i: nat, kind: Kind, busadr: byte): Table
    requires i < |t|
  {
    t[i := t[i].(busadr := if busadr != 0 then busadr else FreeAdr(t), kind := kind, active := true)]
  }

  /** mgt_registerNode: the new table and the slot, or None if the table is full. Address 0 asks for a free one. */
  function Register(t: Table, id: seq<byte>, kind: Kind, busadr: byte): (r: Option<(Table, nat)>)
    ensures r.Some? ==> r.value.1 < |t| == |r.value.0|
  {
    match SlotFor(t, id)
    case None => None
    case Some((t1, i)) => Some((Assigned(t1, i, kind, busadr), i))
  }

  // ----- Incoming packets -----

  /** A management packet; `data` holds the announced number of bytes. */
  datatype InPacket = InPacket(src: byte, data: seq<byte>)

  const DISCOVER: byte := 68
  const IDENTIFY: byte := 73
  const VERSION: byte := 86
  const ALIVE: byte := 65
  const BRIDGE_ID: byte := 66
  const CMD_RESET: byte := 114
  const CMD_INTERVAL: byte := 113
  const CMD_ADDRESS: byte := 83
  const CMD_OK: byte := 79
  const CMD_VERSION: byte := 86
  const CMD_GROUP: byte := 65

  /** The payload is there as far as the handler of its type reads it. */
  predicate WellFormed(p: InPacket) {
    && 1 <= |p.data| <= DATA_LEN
    && (p.data[0] == DISCOVER ==> |p.data| >= 7)
    && (p.data[0] == BRIDGE_ID ==> |p.data| >= 5)
    && (p.data[0] == VERSION ==> |p.data| >= 2)
  }

  /** The C string at the start of a buffer. */
  function CString(s: seq<byte>): (r: seq<byte>)
    ensures |r| <= |s| && 0 !in r
  {
    if s == [] || s[0] == 0 then [] else [s[0]] + CString(s[1..])
  }

  /** The identifier a packet carries after its type-specific header. */
  function PacketId(p: InPacket): seq<byte>
    requires WellFormed(p)
  {
    if p.data[0] == DISCOVER then CString(p.data[7..])
    else if p.data[0] == BRIDGE_ID then CString(p.data[5..])
    else CString(p.data[1..])
  }

  function Interval(p: InPacket): nat
    requires |p.data| >= 3
  {
    (p.data[1] as int) * 256 + p.data[2]
  }

  function Classes(four: seq<byte>): seq<byte>
    requires |four| == 4
  {
    four + seq(CLASSES - 4, _ => 0)
  }

  function Reset(adr: byte): seq<Packet> {
    [Packet(adr, FLAG_MGT + FLAG_NOACK, [CMD_RESET])]
  }

  function OK(adr: byte): seq<Packet> {
    Command(adr, CMD_OK, []) + Command(adr, CMD_VERSION, [])
  }

  /** One 'A' command per group set in the first n entries of the group list. */
  function GroupCommands(adr: byte, groups: seq<int>, n: nat): seq<Packet>
    requires n <= |groups|
  {
    if n == 0 then []
    else
      GroupCommands(adr, groups, n - 1) +
      (if groups[n - 1] != -1 then Command(adr, CMD_GROUP, [ToByte(groups[n - 1])]) else [])
  }

  /** The groups of a node for the node, then OK and the version query for the sender. */
  function Greeting(n: Node, src: byte): seq<Packet> {
    GroupCommands(ToByte(n.busadr), n.groups, |n.groups|) + OK(src)
  }

  /** Table and packets queued by a handler, or the null pointer it would follow. */
  datatype Outcome = Handled(t: Table, sent: seq<Packet>) | NullDeref

  function Admitted(t: Table, i: nat, timeout: int, p: InPacket): Table
    requires i < |t| && WellFormed(p) && p.data[0] == DISCOVER
  {
    t[i := t[i].(classes := Classes(p.data[3..7]), state := State.Identify, timeout := timeout)]
  }

  /** The query interval for the bridge and the broadcast that gives the node its address. */
  function Invitation(adr: byte, p: InPacket): seq<Packet>
    requires WellFormed(p) && p.data[0] == DISCOVER
  {
    Command(BRIDGE, CMD_INTERVAL, [adr, Interval(p) / 256, Interval(p) % 256]) +
    Command(BROADCAST, CMD_ADDRESS, [adr] + PacketId(p) + [0])
  }

  function HandleDiscover(t: Table, timeout: int, p: InPacket): (o: Outcome)
    requires WellFormed(p) && p.data[0] == DISCOVER
    ensures o.Handled?
  {
    match Register(t, PacketId(p), Ordinary, 0)
    case None => Handled(t, [])
    case Some((t1, i)) => Handled(Admitted(t1, i, timeout, p), Invitation(ToByte(t1[i].busadr), p))
  }

  function HandleIdentify(t: Table, timeout: int, p: InPacket): (o: Outcome)
    requires WellFormed(p) && p.data[0] == IDENTIFY
    ensures o.Handled?
  {
    match ById(t, PacketId(p))
    case None => Handled(t, Reset(p.src))
    case Some(i) =>
      if t[i].state != State.Identify then Handled(t, Reset(p.src))
      else if t[i].netup then
        Handled(
          t[i := t[i].(state := Normal, timeout := timeout, busup := true, active := true)],
          Greeting(t[i], p.src))
      else Handled(t, [])
  }

  function HandleAlive(t: Table, timeout: int, p: InPacket): (o: Outcome)
    ensures o.Handled?
  {
    match ByBusAdr(t, p.src)
    case None => Handled(t, Reset(p.src))
    case Some(i) => Handled(t[i := t[i].(timeout := timeout)], [])
  }

  function HandleBridge(t: Table, timeout: int, p: InPacket): Outcome
    requires WellFormed(p) && p.data[0] == BRIDGE_ID
  {
    var registered := Register(t, PacketId(p), Kind.Bridge, BRIDGE);
    var t1 := if registered.Some? then registered.value.0 else t;
    match ByBusAdr(t1, p.src)
    case None => NullDeref
    case Some(i) =>
      Handled(
        t1[i := t1[i].(classes := Classes(p.data[1..5]), state := Normal, timeout := timeout, busup := true)],
        Greeting(t1[i], p.src))
  }

  function Handle(t: Table, timeout: int, p: InPacket): Outcome
    requires WellFormed(p)
  {
    if p.data[0] == DISCOVER then HandleDiscover(t, timeout, p)
    else if p.data[0] == IDENTIFY then HandleIdentify(t, timeout, p)
    else if p.data[0] == VERSION then (if ByBusAdr(t, p.src).None? then NullDeref else Handled(t, []))
    else if p.data[0] == ALIVE then HandleAlive(t, timeout, p)
    else if p.data[0] == BRIDGE_ID then HandleBridge(t, timeout, p)
    else Handled(t, [])
  }

  // ----- The tick -----

  predicate IsLive(n: Node) {
    !n.free && (n.state == State.Identify || n.state == Normal)
  }

  function Ticked(n: Node): Node {
    if !IsLive(n) then n
    else if n.timeout == 0 then n.(timeout := -1, kind := NoKind, active := false, state := TimedOut)
    else n.(timeout := n.timeout - 1)
  }

  function AllTicked(t: Table): (u: Table)
    ensures |u| == |t| && forall i | 0 <= i < |t| :: u[i] == Ticked(t[i])
  {
    seq(|t|, i requires 0 <= i < |t| => Ticked(t[i]))
  }

  // ----- The gateway -----

  /** The node table with the queue of outgoing packets and config.nodetimeout. */
  class Gateway {
    const table: NodeTable
    const nodetimeout: int
    var sent: seq<Packet>

    constructor (table: NodeTable, nodetimeout: int)
      ensures this.table == table && this.nodetimeout == nodetimeout && sent == []
    {
      this.table := table;
      this.nodetimeout := nodetimeout;
      sent := [];
    }

    method SendCmdData(adr: byte, cmd: byte, data: seq<byte>)
      requires |data| <= 254
      modifies `sent
      ensures sent == old(sent) + Command(adr, cmd, data)
    {
      var packets := BuildCommand(adr, cmd, data);
      sent := sent + packets;
    }

    method SendReset(adr: byte)
      modifies `sent
      ensures sent == old(sent) + Reset(adr)
    {
      sent := sent + [Packet(adr, FLAG_MGT + FLAG_NOACK, [CMD_RESET])];
    }

    method SendOK(adr: byte)
      modifies `sent
      ensures sent == old(sent) + OK(adr)
    {
      SendCmdData(adr, CMD_OK, []);
      SendCmdData(adr, CMD_VERSION, []);
    }

    method SetQueryInterval(adr: byte, interval: nat)
      requires interval < 0x1_0000
      modifies `sent
      ensures sent == old(sent) + Command(BRIDGE, CMD_INTERVAL, [adr, interval / 256, interval % 256])
    {
      SendCmdData(BRIDGE, CMD_INTERVAL, [adr, interval / 256, interval % 256]);
    }

    method SetAddress(adr: byte, id: seq<byte>)
      requires |id| <= DATA_LEN
      modifies `sent
      ensures sent == old(sent) + Command(BROADCAST, CMD_ADDRESS, [adr] + id + [0])
    {
      SendCmdData(BROADCAST, CMD_ADDRESS, [adr] + id + [0]);
    }

    method SendMulticastGroups(i: nat)
      requires table.Valid() && i < MAX_NODE
      modifies `sent
      ensures var n := table.nodes[i];
              sent == old(sent) + GroupCommands(ToByte(n.busadr), n.groups, |n.groups|)
    {
      var n := table.nodes[i];
      for g := 0 to |n.groups|
        invariant sent == old(sent) + GroupCommands(ToByte(n.busadr), n.groups, g)
      {
        if n.groups[g] != -1 {
          SendCmdData(ToByte(n.busadr), CMD_GROUP, [ToByte(n.groups[g])]);
        }
      }
    }

    method GetFreeBusAdr() returns (adr: int)
      requires table.Valid()
      ensures adr == FreeAdr(table.nodes[..])
    {
      for i := FIRST_ADR to LAST_ADR + 1
        invariant FreeAdr(table.nodes[..]) == FreeAdrFrom(table.nodes[..], i)
      {
        var holder := table.GetNodeByBusAdr(i);
        if holder.None? {
          return i;
        }
      }
      return -1;
    }

    /** The first half of mgt_registerNode: look the id up, or take a free slot for it. */
    method FindOrAdd(id: seq<byte>) returns (slot: Option<nat>)
      requires table.Valid()
      modifies table.nodes
      ensures match SlotFor(old(table.nodes[..]), id)
              case None => slot.None? && table.nodes[..] == old(table.nodes[..])
              case Some((t, i)) => slot == Some(i) && table.nodes[..] == t
    {
      slot := table.GetNodeById(id);
      if slot.None? {
        slot := table.GetFreeNode();
        if slot.Some? {
          table.Put(slot.value, table.nodes[slot.value].(id := id));
          table.AddNode(slot.value);
        }
      }
    }

    method RegisterNode(id: seq<byte>, kind: Kind, busadr: byte) returns (slot: Option<nat>)
      requires table.Valid()
      modifies table.nodes
      ensures match Register(old(table.nodes[..]), id, kind, busadr)
              case None => slot.None? && table.nodes[..] == old(table.nodes[..])
              case Some((t, i)) => slot == Some(i) && table.nodes[..] == t
    {
      slot := FindOrAdd(id);
      if slot.None? {
        return;
      }
      AssignAddress(slot.value, kind, busadr);
    }

    method AssignAddress(i: nat, kind: Kind, busadr: byte)
      requires table.Valid() && i < MAX_NODE && !table.nodes[i].free
      modifies table.nodes
      ensures table.nodes[..] == Assigned(old(table.nodes[..]), i, kind, busadr)
    {
      var adr: int := busadr;
      if busadr == 0 {
        adr := GetFreeBusAdr();
      }
      table.Put(i, table.nodes[i].(busadr := adr));
      table.Put(i, table.nodes[i].(kind := kind));
      table.ActivateNode(i);
    }

    /** busmgt_inpacket; `crashed` where the C code follows a null pointer. */
    method InPacketArrived(p: InPacket) returns (crashed: bool)
      requires table.Valid() && WellFormed(p)
      modifies this, table.nodes
      ensures match Handle(old(table.nodes[..]), nodetimeout, p)
              case NullDeref => crashed
              case Handled(t, packets) => !crashed && table.nodes[..] == t && sent == old(sent) + packets
    {
      crashed := false;
      if p.data[0] == DISCOVER {
        Discovered(p);
      } else if p.data[0] == IDENTIFY {
        Identified(p);
      } else if p.data[0] == VERSION {
        var slot := table.GetNodeByBusAdr(p.src);
        crashed := slot.None?;
      } else if p.data[0] == ALIVE {
        var slot := table.GetNodeByBusAdr(p.src);
        if slot.None? {
          SendReset(p.src);
        } else {
          table.Put(slot.value, table.nodes[slot.value].(timeout := nodetimeout));
        }
      } else if p.data[0] == BRIDGE_ID {
        crashed := BridgeIdentified(p);
      }
    }

    method Discovered(p: InPacket)
      requires table.Valid() && WellFormed(p) && p.data[0] == DISCOVER
      modifies this, table.nodes
      ensures table.nodes[..] == HandleDiscover(old(table.nodes[..]), nodetimeout, p).t
      ensures sent == old(sent) + HandleDiscover(old(table.nodes[..]), nodetimeout, p).sent
    {
      var id := PacketId(p);
      var slot := RegisterNode(id, Ordinary, 0);
      if slot.None? {
        return;
      }
      assert table.nodes[slot.value].busadr != 0;
      Admit(slot.value, p);
    }

    /** The rest of the discover handler: what is sent to, and recorded about, a node that got an address. */
    method Admit(i: nat, p: InPacket)
      requires table.Valid() && i < MAX_NODE && WellFormed(p) && p.data[0] == DISCOVER
      modifies this, table.nodes
      ensures table.nodes[..] == Admitted(old(table.nodes[..]), i, nodetimeout, p)
      ensures sent == old(sent) + Invitation(ToByte(old(table.nodes[i].busadr)), p)
    {
      var adr := ToByte(table.nodes[i].busadr);
      table.Put(i, table.nodes[i].(classes := Classes(p.data[3..7])));
      SetQueryInterval(adr, Interval(p));
      SetAddress(adr, PacketId(p));
      table.Put(i, table.nodes[i].(state := State.Identify));
      table.Put(i, table.nodes[i].(timeout := nodetimeout));
    }

    method Identified(p: InPacket)
      requires table.Valid() && WellFormed(p) && p.data[0] == IDENTIFY
      modifies this, table.nodes
      ensures table.nodes[..] == HandleIdentify(old(table.nodes[..]), nodetimeout, p).t
      ensures sent == old(sent) + HandleIdentify(old(table.nodes[..]), nodetimeout, p).sent
    {
      var slot := table.GetNodeById(PacketId(p));
      if slot.None? {
        SendReset(p.src);
        return;
      }
      var i := slot.value;
      if table.nodes[i].state != State.Identify {
        SendReset(p.src);
        return;
      }
      if table.nodes[i].netup {
        Welcome(i, p.src);
        table.ActivateNode(i);
      }
    }

    /** What the identify and the bridge handler do alike: greet the node and put it into normal operation. */
    method Welcome(i: nat, src: byte)
      requires table.Valid() && i < MAX_NODE
      modifies this, table.nodes
      ensures table.nodes[..] ==
              old(table.nodes[..])[i := old(table.nodes[i]).(state := Normal, timeout := nodetimeout, busup := true)]
      ensures sent == old(sent) + Greeting(old(table.nodes[i]), src)
    {
      SendMulticastGroups(i);
      SendOK(src);
      table.Put(i, table.nodes[i].(state := Normal));
      table.Put(i, table.nodes[i].(timeout := nodetimeout));
      table.Put(i, table.nodes[i].(busup := true));
    }

    method BridgeIdentified(p: InPacket) returns (crashed: bool)
      requires table.Valid() && WellFormed(p) && p.data[0] == BRIDGE_ID
      modifies this, table.nodes
      ensures match HandleBridge(old(table.nodes[..]), nodetimeout, p)
              case NullDeref => crashed
              case Handled(t, packets) => !crashed && table.nodes[..] == t && sent == old(sent) + packets
    {
      var _ := RegisterNode(PacketId(p), Kind.Bridge, BRIDGE);
      var slot := table.GetNodeByBusAdr(p.src);
      if slot.None? {
        return true;
      }
      table.Put(slot.value, table.nodes[slot.value].(classes := Classes(p.data[1..5])));
      Welcome(slot.value, p.src);
      return false;
    }

    /** The body of the loop in mgt_checkTimeout. */
    method TickNode(i: nat)
      requires table.Valid() && i < MAX_NODE && !table.nodes[i].free
      modifies table.nodes
      ensures table.nodes[..] == old(table.nodes[..])[i := Ticked(old(table.nodes[i]))]
    {
      var n := table.nodes[i];
      if n.state == State.Identify || n.state == Normal {
        table.Put(i, n.(timeout := n.timeout - 1));
        if n.timeout == 0 {
          table.Put(i, table.nodes[i].(kind := NoKind));
          table.DeactivateNode(i);
          table.Put(i, table.nodes[i].(state := TimedOut));
        }
      }
    }

    /** mgt_checkTimeout: walks the table by node number, so each live node is decremented exactly once. */
    method CheckTimeout()
      requires table.Valid()
      modifies table.nodes
      ensures table.nodes[..] == AllTicked(old(table.nodes[..]))
    {
      ghost var t := table.nodes[..];
      var count := table.GetNodeCount();
      for k := 0 to count
        invariant table.nodes[..] == TickedBelow(t, k)
      {
        TickedBelowFlags(t, k);
        var slot := table.GetNode(k);
        TickedBelowStep(t, k, slot.value);
        TickNode(slot.value);
      }
      TickedBelowCount(t);
    }
  }

  /** The table when the nodes numbered below k have been ticked. */
  function TickedBelow(t: Table, k: nat): (u: Table)
    ensures |u| == |t| && forall i | 0 <= i < |t| :: u[i] == if Rank(t, i) < k then Ticked(t[i]) else t[i]
  {
    seq(|t|, i requires 0 <= i < |t| => if Rank(t, i) < k then Ticked(t[i]) else t[i])
  }

  lemma TickedBelowFlags(t: Table, k: nat)
    ensures Count(TickedBelow(t, k)) == Count(t)
  {
    RankSameFlags(t, TickedBelow(t, k), |t|);
  }

  lemma TickedBelowStep(t: Table, k: nat, i: nat)
    requires IsSelect(TickedBelow(t, k), k, Some(i))
    ensures TickedBelow(t, k + 1) == TickedBelow(t, k)[i := Ticked(TickedBelow(t, k)[i])]
  {
    RankSameFlags(t, TickedBelow(t, k), i);
    forall j | 0 <= j < |t| && j != i && Rank(t, j) == k
      ensures t[j].free
    {
      if j < i {
        RankMonotone(t, j, i);
      } else {
        RankMonotone(t, i, j);
      }
    }
  }

  lemma TickedBelowCount(t: Table)
    ensures TickedBelow(t, Count(t)) == AllTicked(t)
  {
    forall i | 0 <= i < |t|
      ensures Rank(t, i) < Count(t) || t[i].free
    {
      RankMonotone(t, i, |t|);
    }
  }
}
