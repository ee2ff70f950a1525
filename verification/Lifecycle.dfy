/** What holds of the node table over whole runs of packets, ticks and network events. */
module Lifecycle {
  import opened Bytes
  import opened Nodes
  import opened Packets
  import opened BusMgt

  // ----- Runs -----

  datatype Event =
    | Arrived(p: InPacket)
    | Tick
    | NetUp(slot: nat)  // net_createSockets succeeded for an allocated node

  function Next(t: Table, timeout: int, e: Event): Outcome
    requires e.Arrived? ==> WellFormed(e.p)
  {
    match e
    case Arrived(p) => Handle(t, timeout, p)
    case Tick => Handled(AllTicked(t), [])
    case NetUp(i) => Handled(if i < |t| && !t[i].free then t[i := t[i].(netup := true)] else t, [])
  }

  /** The bus has one bridge: it talks from address 2 and keeps its id. */
  predicate Legal(e: Event, bridge: seq<byte>) {
    e.Arrived? ==>
      WellFormed(e.p) && (e.p.data[0] == BRIDGE_ID ==> e.p.src == BRIDGE && PacketId(e.p) == bridge)
  }

  /** The table after the configuration was read: configured nodes with distinct ids, none of them seen yet. */
  predicate Configured(t: Table) {
    && |t| == MAX_NODE && IsPrefix(t)
    && (forall i | 0 <= i < |t| :: !t[i].active && t[i].state == TimedOut)
    && (forall i, j | 0 <= i < j < |t| :: !t[i].free && !t[j].free ==> t[i].id != t[j].id)
  }

  /** A run: ts[j] is the table before event j. A run that follows a null pointer has no next table. */
  ghost predicate IsRun(ts: seq<Table>, es: seq<Event>, timeout: int, bridge: seq<byte>) {
    && |ts| == |es| + 1 && Configured(ts[0])
    && (forall j | 0 <= j < |es| :: Legal(es[j], bridge))
    && (forall j | 0 <= j < |es| :: StepsTo(ts[j], timeout, es[j], ts[j + 1]))
  }

  predicate StepsTo(t: Table, timeout: int, e: Event, u: Table)
    requires e.Arrived? ==> WellFormed(e.p)
  {
    var o := Next(t, timeout, e);
    o.Handled? && o.t == u
  }

  // ----- The invariant -----

  /** What holds of a single slot. */
  predicate SlotOk(n: Node, bridge: seq<byte>) {
    && (n.active <==> n.state == State.Identify || n.state == Normal)
    && (n.free ==> !n.active)
    && (n.active ==>
          || (n.kind == Ordinary && (FIRST_ADR <= n.busadr <= LAST_ADR || n.busadr == -1))
          || (n.kind == Kind.Bridge && n.busadr == BRIDGE && n.id == bridge))
  }

  /** Two active slots never share an address, unless neither got one. */
  predicate Apart(m: Node, n: Node) {
    && (!m.free && !n.free ==> m.id != n.id)
    && (m.active && n.active ==> m.busadr != n.busadr || m.busadr == -1)
  }

  predicate Inv(t: Table, bridge: seq<byte>) {
    && |t| == MAX_NODE && IsPrefix(t)
    && (forall i | 0 <= i < |t| :: SlotOk(t[i], bridge))
    && (forall i, j | 0 <= i < |t| && 0 <= j < |t| && i != j :: Apart(t[i], t[j]))
  }

  /** Replacing one slot keeps the invariant if the new slot is fine by itself and apart from the others. */
  lemma InvUpdate(t: Table, i: nat, n: Node, bridge: seq<byte>)
    requires Inv(t, bridge) && i < |t| && !n.free && SlotOk(n, bridge)
    requires forall j | 0 <= j < i :: !t[j].free
    requires forall j | 0 <= j < |t| && j != i :: Apart(t[j], n)
    ensures Inv(t[i := n], bridge)
  {
    var u := t[i := n];
    forall j, k | 0 <= j < |u| && 0 <= k < |u| && j != k
      ensures Apart(u[j], u[k])
    {
      assert Apart(t[j], t[k]);
      if j == i {
        assert Apart(t[k], n);
      } else if k == i {
        assert Apart(t[j], n);
      }
    }
  }

  /** The slot an id gets: known or first free, so everything below it is allocated and nobody else has the id. */
  predicate IsSlotOf(t: Table, i: nat, id: seq<byte>) {
    && i < |t|
    && (forall j | 0 <= j < i :: !t[j].free)
    && (forall j | 0 <= j < |t| && j != i && !t[j].free :: t[j].id != id)
    && (t[i].free || t[i].id == id)
  }

  lemma SlotForFacts(t: Table, id: seq<byte>, bridge: seq<byte>)
    requires Inv(t, bridge) && SlotFor(t, id).Some?
    ensures var (t1, i) := SlotFor(t, id).value;
            && IsSlotOf(t, i, id) && t1 == t[i := t1[i]]
            && t1[i] == (if t[i].free then Wiped(t[i]) else t[i]).(id := id, free := false)
  {
    var known := ById(t, id);
    if known.Some? {
      var i := known.value;
      assert t[i := t[i]] == t;
      forall j | 0 <= j < |t| && j != i && !t[j].free
        ensures t[j].id != id
      {
        assert Apart(t[j], t[i]);
      }
    }
  }

  lemma FreeAdrFacts(t: Table)
    ensures FreeAdr(t) == -1 || FIRST_ADR <= FreeAdr(t) <= LAST_ADR
    ensures forall j | 0 <= j < |t| && !t[j].free && t[j].active ::
              t[j].busadr != FreeAdr(t) || FreeAdr(t) == -1
  {
  }

  /** A free address is held by no active node, whatever happens to slot i. */
  lemma FreshAddress(t: Table, t1: Table, i: nat, bridge: seq<byte>)
    requires Inv(t, bridge) && i < |t| == |t1| && t1 == t[i := t1[i]]
    ensures forall j | 0 <= j < |t| && j != i && t[j].active :: t[j].busadr != FreeAdr(t1) || FreeAdr(t1) == -1
  {
    FreeAdrFacts(t1);
    forall j | 0 <= j < |t| && j != i && t[j].active
      ensures t[j].busadr != FreeAdr(t1) || FreeAdr(t1) == -1
    {
      assert SlotOk(t[j], bridge) && t1[j] == t[j];
    }
  }

  /** The one slot a registration touches, and what ends up in it. */
  lemma RegisterFacts(t: Table, id: seq<byte>, kind: Kind, busadr: byte, bridge: seq<byte>)
    requires Inv(t, bridge) && Register(t, id, kind, busadr).Some?
    ensures var (u, i) := Register(t, id, kind, busadr).value;
            && IsSlotOf(t, i, id) && u == t[i := u[i]]
            && u[i] == (if t[i].free then Wiped(t[i]) else t[i]).(id := id, free := false, kind := kind,
                                                                 active := true, busadr := u[i].busadr)
            && (busadr != 0 ==> u[i].busadr == busadr)
            && (busadr == 0 ==>
                  && (u[i].busadr == -1 || FIRST_ADR <= u[i].busadr <= LAST_ADR)
                  && forall j | 0 <= j < |t| && j != i && t[j].active ::
                       t[j].busadr != u[i].busadr || u[i].busadr == -1)
  {
    SlotForFacts(t, id, bridge);
    var (t1, i) := SlotFor(t, id).value;
    FreeAdrFacts(t1);
    FreshAddress(t, t1, i, bridge);
  }

  lemma DiscoverKeepsInv(t: Table, timeout: int, p: InPacket, bridge: seq<byte>)
    requires Inv(t, bridge) && WellFormed(p) && p.data[0] == DISCOVER
    ensures Inv(HandleDiscover(t, timeout, p).t, bridge)
  {
    var registered := Register(t, PacketId(p), Ordinary, 0);
    if registered.Some? {
      RegisterFacts(t, PacketId(p), Ordinary, 0, bridge);
      var (u, i) := registered.value;
      var n := Admitted(u, i, timeout, p)[i];
      InvUpdate(t, i, n, bridge);
      assert Admitted(u, i, timeout, p) == t[i := n];
    }
  }

  lemma IdentifyKeepsInv(t: Table, timeout: int, p: InPacket, bridge: seq<byte>)
    requires Inv(t, bridge) && WellFormed(p) && p.data[0] == IDENTIFY
    ensures Inv(HandleIdentify(t, timeout, p).t, bridge)
  {
    var slot := ById(t, PacketId(p));
    if slot.Some? && t[slot.value].state == State.Identify && t[slot.value].netup {
      ReplaceKeepsInv(t, slot.value,
        t[slot.value].(state := Normal, timeout := timeout, busup := true, active := true), bridge);
    }
  }

  /** A change to an allocated slot that keeps its id, its activity and its address. */
  lemma ReplaceKeepsInv(t: Table, i: nat, n: Node, bridge: seq<byte>)
    requires Inv(t, bridge) && i < |t| && !t[i].free && !n.free && SlotOk(n, bridge)
    requires n.id == t[i].id && (n.active ==> t[i].active && n.busadr == t[i].busadr)
    ensures Inv(t[i := n], bridge)
  {
    forall j | 0 <= j < |t| && j != i
      ensures Apart(t[j], n)
    {
      assert Apart(t[j], t[i]);
    }
    InvUpdate(t, i, n, bridge);
  }

  lemma AliveKeepsInv(t: Table, timeout: int, p: InPacket, bridge: seq<byte>)
    requires Inv(t, bridge)
    ensures Inv(HandleAlive(t, timeout, p).t, bridge)
  {
    var slot := ByBusAdr(t, p.src);
    if slot.Some? {
      ReplaceKeepsInv(t, slot.value, t[slot.value].(timeout := timeout), bridge);
    }
  }

  /** With one bridge on the bus, the node found at address 2 is the one just registered. */
  lemma BridgeSlot(t: Table, p: InPacket, bridge: seq<byte>)
    requires Inv(t, bridge) && WellFormed(p) && p.data[0] == BRIDGE_ID
    requires p.src == BRIDGE && PacketId(p) == bridge
    requires Register(t, bridge, Kind.Bridge, BRIDGE).Some?
    ensures var (u, i) := Register(t, bridge, Kind.Bridge, BRIDGE).value;
            && ByBusAdr(u, BRIDGE) == Some(i)
            && forall j | 0 <= j < |t| && j != i && t[j].active :: t[j].busadr != BRIDGE
  {
    RegisterFacts(t, bridge, Kind.Bridge, BRIDGE, bridge);
    var (u, i) := Register(t, bridge, Kind.Bridge, BRIDGE).value;
    forall j | 0 <= j < |t| && j != i && t[j].active
      ensures t[j].busadr != BRIDGE && u[j] == t[j]
    {
      assert SlotOk(t[j], bridge);
    }
  }

  lemma BridgeKeepsInv(t: Table, timeout: int, p: InPacket, bridge: seq<byte>)
    requires Inv(t, bridge) && WellFormed(p) && p.data[0] == BRIDGE_ID
    requires p.src == BRIDGE && PacketId(p) == bridge
    ensures var o := HandleBridge(t, timeout, p); o.Handled? ==> Inv(o.t, bridge)
  {
    var registered := Register(t, bridge, Kind.Bridge, BRIDGE);
    if registered.Some? {
      RegisterFacts(t, bridge, Kind.Bridge, BRIDGE, bridge);
      BridgeSlot(t, p, bridge);
      var (u, i) := registered.value;
      var n := u[i].(classes := Classes(p.data[1..5]), state := Normal, timeout := timeout, busup := true);
      InvUpdate(t, i, n, bridge);
      assert u[i := n] == t[i := n];
    } else {
      BridgeCrashesExactly(t, timeout, p, bridge);
    }
  }

  /** A bridge announcement follows a null pointer iff the bridge is unknown and the table is full. */
  lemma BridgeCrashesExactly(t: Table, timeout: int, p: InPacket, bridge: seq<byte>)
    requires Inv(t, bridge) && WellFormed(p) && p.data[0] == BRIDGE_ID
    requires p.src == BRIDGE && PacketId(p) == bridge
    ensures HandleBridge(t, timeout, p).NullDeref? <==>
            forall i | 0 <= i < |t| :: !t[i].free && t[i].id != bridge
  {
    if Register(t, bridge, Kind.Bridge, BRIDGE).Some? {
      BridgeSlot(t, p, bridge);
    } else {
      var slot := ByBusAdr(t, BRIDGE);
      assert slot.Some? ==> SlotOk(t[slot.value], bridge);
    }
  }

  lemma TickKeepsInv(t: Table, bridge: seq<byte>)
    requires Inv(t, bridge)
    ensures Inv(AllTicked(t), bridge)
  {
    var u := AllTicked(t);
    forall i | 0 <= i < |t|
      ensures SlotOk(u[i], bridge)
    {
      assert SlotOk(t[i], bridge);
    }
    forall i, j | 0 <= i < |t| && 0 <= j < |t| && i != j
      ensures Apart(u[i], u[j])
    {
      assert Apart(t[i], t[j]);
    }
  }

  lemma StepKeepsInv(t: Table, timeout: int, e: Event, bridge: seq<byte>)
    requires Inv(t, bridge) && Legal(e, bridge)
    ensures var o := Next(t, timeout, e); o.Handled? ==> Inv(o.t, bridge)
  {
    match e
    case Tick => TickKeepsInv(t, bridge);
    case NetUp(i) =>
      if i < |t| && !t[i].free {
        assert SlotOk(t[i], bridge);
        ReplaceKeepsInv(t, i, t[i].(netup := true), bridge);
      }
    case Arrived(p) =>
      if p.data[0] == DISCOVER {
        DiscoverKeepsInv(t, timeout, p, bridge);
      } else if p.data[0] == IDENTIFY {
        IdentifyKeepsInv(t, timeout, p, bridge);
      } else if p.data[0] == ALIVE {
        AliveKeepsInv(t, timeout, p, bridge);
      } else if p.data[0] == BRIDGE_ID {
        BridgeKeepsInv(t, timeout, p, bridge);
      }
  }

  /** Every table of every run satisfies the invariant. */
  lemma {:induction false} ReachableInv(ts: seq<Table>, es: seq<Event>, timeout: int, bridge: seq<byte>, n: nat)
    requires IsRun(ts, es, timeout, bridge) && n < |ts|
    ensures Inv(ts[n], bridge)
    decreases n
  {
    if n > 0 {
      ReachableInv(ts, es, timeout, bridge, n - 1);
      assert StepsTo(ts[n - 1], timeout, es[n - 1], ts[n]);
      StepKeepsInv(ts[n - 1], timeout, es[n - 1], bridge);
    } else {
      forall i, j | 0 <= i < |ts[0]| && 0 <= j < |ts[0]| && i != j
        ensures Apart(ts[0][i], ts[0][j])
      {
      }
    }
  }

  // ----- What one step does to one slot -----

  /** Slots stay allocated and keep their id. */
  predicate KeepsSlots(t: Table, u: Table) {
    |t| == |u| && forall k | 0 <= k < |t| && !t[k].free :: !u[k].free && u[k].id == t[k].id
  }

  /** The slot whose keep-alive timer an event restarts. */
  function Resets(t: Table, e: Event): (r: Option<nat>)
    requires e.Arrived? ==> WellFormed(e.p)
    ensures r.Some? ==> r.value < |t|
  {
    if !e.Arrived? then None
    else
      var p := e.p;
      if p.data[0] == DISCOVER then
        match Register(t, PacketId(p), Ordinary, 0)
        case None => None
        case Some((_, i)) => Some(i)
      else if p.data[0] == BRIDGE_ID then
        match Register(t, PacketId(p), Kind.Bridge, BRIDGE)
        case None => None
        case Some((_, i)) => Some(i)
      else if p.data[0] == IDENTIFY then
        match ById(t, PacketId(p))
        case None => None
        case Some(i) => if t[i].state == State.Identify && t[i].netup then Some(i) else None
      else if p.data[0] == ALIVE then ByBusAdr(t, p.src)
      else None
  }

  predicate IsFrom(e: Event, kind: byte, id: seq<byte>) {
    e.Arrived? && WellFormed(e.p) && e.p.data[0] == kind && PacketId(e.p) == id
  }

  /** The effect of a step on slot k. */
  predicate SlotStep(t: Table, timeout: int, e: Event, u: Table, k: nat)
    requires k < |t| == |u| && (e.Arrived? ==> WellFormed(e.p))
  {
    && (Resets(t, e) == Some(k) ==> u[k].active && u[k].timeout == timeout)
    && (Resets(t, e) != Some(k) && !e.Tick? ==> u[k].active == t[k].active && u[k].timeout == t[k].timeout)
    && (e.Tick? ==> u[k] == Ticked(t[k]))
    && (u[k].active && !t[k].active ==> IsFrom(e, DISCOVER, u[k].id) || IsFrom(e, BRIDGE_ID, u[k].id))
    && (u[k].state == State.Identify ==> t[k].state == State.Identify || IsFrom(e, DISCOVER, u[k].id))
    && (u[k].state == Normal && u[k].kind == Ordinary ==>
          || (t[k].state == Normal && t[k].kind == Ordinary)
          || (t[k].state == State.Identify && t[k].netup && IsFrom(e, IDENTIFY, u[k].id)))
  }

  lemma DiscoverOnSlot(t: Table, timeout: int, e: Event, u: Table, k: nat, bridge: seq<byte>)
    requires Inv(t, bridge) && Legal(e, bridge) && k < |t| && StepsTo(t, timeout, e, u)
    requires e.Arrived? && e.p.data[0] == DISCOVER
    ensures KeepsSlots(t, u) && SlotStep(t, timeout, e, u, k)
  {
    var id := PacketId(e.p);
    var registered := Register(t, id, Ordinary, 0);
    if registered.Some? {
      RegisterFacts(t, id, Ordinary, 0, bridge);
      var (t1, i) := registered.value;
      var n := t1[i].(classes := Classes(e.p.data[3..7]), state := State.Identify, timeout := timeout);
      assert u == t[i := n] && Resets(t, e) == Some(i);
      OneSlotChanged(t, i, n);
      assert k == i ==> u[k] == n && IsFrom(e, DISCOVER, n.id);
      assert k != i ==> u[k] == t[k];
    }
  }

  lemma OneSlotChanged(t: Table, i: nat, n: Node)
    requires i < |t| && !n.free && (t[i].free || t[i].id == n.id)
    ensures KeepsSlots(t, t[i := n])
  {
  }

  lemma IdentifyOnSlot(t: Table, timeout: int, e: Event, u: Table, k: nat, bridge: seq<byte>)
    requires Inv(t, bridge) && Legal(e, bridge) && k < |t| && StepsTo(t, timeout, e, u)
    requires e.Arrived? && e.p.data[0] == IDENTIFY
    ensures KeepsSlots(t, u) && SlotStep(t, timeout, e, u, k)
  {
    var slot := ById(t, PacketId(e.p));
    assert slot.Some? ==> SlotOk(t[slot.value], bridge);
  }

  lemma BridgeOnSlot(t: Table, timeout: int, e: Event, u: Table, k: nat, bridge: seq<byte>)
    requires Inv(t, bridge) && Legal(e, bridge) && k < |t| && StepsTo(t, timeout, e, u)
    requires e.Arrived? && e.p.data[0] == BRIDGE_ID
    ensures KeepsSlots(t, u) && SlotStep(t, timeout, e, u, k)
  {
    BridgeCrashesExactly(t, timeout, e.p, bridge);
    if Register(t, bridge, Kind.Bridge, BRIDGE).Some? {
      RegisterFacts(t, bridge, Kind.Bridge, BRIDGE, bridge);
      BridgeSlot(t, e.p, bridge);
    }
  }

  lemma StepOnSlot(t: Table, timeout: int, e: Event, u: Table, k: nat, bridge: seq<byte>)
    requires Inv(t, bridge) && Legal(e, bridge) && k < |t| && StepsTo(t, timeout, e, u)
    ensures KeepsSlots(t, u) && SlotStep(t, timeout, e, u, k)
  {
    if e.Arrived? && e.p.data[0] == DISCOVER {
      DiscoverOnSlot(t, timeout, e, u, k, bridge);
    } else if e.Arrived? && e.p.data[0] == BRIDGE_ID {
      BridgeOnSlot(t, timeout, e, u, k, bridge);
    } else if e.Arrived? && e.p.data[0] == IDENTIFY {
      IdentifyOnSlot(t, timeout, e, u, k, bridge);
    }
  }

  lemma RunStep(ts: seq<Table>, es: seq<Event>, timeout: int, bridge: seq<byte>, n: nat, k: nat)
    requires IsRun(ts, es, timeout, bridge) && n < |es| && k < MAX_NODE
    ensures Inv(ts[n], bridge) && Inv(ts[n + 1], bridge)
    ensures KeepsSlots(ts[n], ts[n + 1]) && SlotStep(ts[n], timeout, es[n], ts[n + 1], k)
  {
    ReachableInv(ts, es, timeout, bridge, n);
    ReachableInv(ts, es, timeout, bridge, n + 1);
    assert Legal(es[n], bridge) && StepsTo(ts[n], timeout, es[n], ts[n + 1]);
    StepOnSlot(ts[n], timeout, es[n], ts[n + 1], k, bridge);
  }

  lemma KeepsSlotsTransitive(t: Table, u: Table, v: Table)
    requires KeepsSlots(t, u) && KeepsSlots(u, v)
    ensures KeepsSlots(t, v)
  {
  }

  lemma StepKeepsSlots(ts: seq<Table>, es: seq<Event>, timeout: int, bridge: seq<byte>, n: nat)
    requires IsRun(ts, es, timeout, bridge) && n < |es|
    ensures KeepsSlots(ts[n], ts[n + 1])
  {
    RunStep(ts, es, timeout, bridge, n, 0);
  }

  lemma {:induction false} KeepsSlotsOverRun(ts: seq<Table>, es: seq<Event>, timeout: int, bridge: seq<byte>,
                                             m: nat, n: nat)
    requires IsRun(ts, es, timeout, bridge) && m <= n < |ts|
    ensures KeepsSlots(ts[m], ts[n])
    decreases n
  {
    if m < n {
      KeepsSlotsOverRun(ts, es, timeout, bridge, m, n - 1);
      StepKeepsSlots(ts, es, timeout, bridge, n - 1);
      KeepsSlotsTransitive(ts[m], ts[n - 1], ts[n]);
    }
  }

  /** The allocated slots stay a prefix that never shrinks, so a node keeps its number and its id for good. */
  lemma SlotsPersist(ts: seq<Table>, es: seq<Event>, timeout: int, bridge: seq<byte>, m: nat, n: nat, k: nat)
    requires IsRun(ts, es, timeout, bridge) && m <= n < |ts|
    requires k < |ts[m]| && !ts[m][k].free
    ensures k < |ts[n]| && ts[n][k].id == ts[m][k].id
    ensures IsSelect(ts[n], k, Some(k)) && Count(ts[m]) <= Count(ts[n])
  {
    KeepsSlotsOverRun(ts, es, timeout, bridge, m, n);
    ReachableInv(ts, es, timeout, bridge, n);
    RankGrows(ts[m], ts[n], |ts[n]|);
    RankOfPrefix(ts[n], k + 1);
  }

  /** Nobody becomes active but by a discover or a bridge packet naming it; an identify activates no one. */
  lemma OnlyRegistrationActivates(ts: seq<Table>, es: seq<Event>, timeout: int, bridge: seq<byte>, n: nat, k: nat)
    requires IsRun(ts, es, timeout, bridge) && n < |es| && k < MAX_NODE
    ensures k < |ts[n]| && k < |ts[n + 1]|
    ensures !ts[n][k].active && ts[n + 1][k].active ==>
              IsFrom(es[n], DISCOVER, ts[n + 1][k].id) || IsFrom(es[n], BRIDGE_ID, ts[n + 1][k].id)
  {
    RunStep(ts, es, timeout, bridge, n, k);
  }

  // ----- Answers -----

  lemma {:induction false} GroupCommandsExactly(adr: byte, groups: seq<int>, n: nat, q: Packet)
    requires n <= |groups|
    ensures q in GroupCommands(adr, groups, n) <==>
            exists i | 0 <= i < n :: groups[i] != -1 && q == Packet(adr, FLAG_MGT, [CMD_GROUP, ToByte(groups[i])])
  {
    if n > 0 {
      GroupCommandsExactly(adr, groups, n - 1, q);
      var last := groups[n - 1];
      assert [CMD_GROUP] + [ToByte(last)] == [CMD_GROUP, ToByte(last)];
    }
  }

  /** A node that is waiting to be identified under this id. */
  predicate Expects(n: Node, id: seq<byte>) {
    !n.free && n.id == id && n.state == State.Identify
  }

  /** An identify packet is answered with OK iff a node expects it with its network up, with a reset iff none does. */
  lemma IdentifyIsAnswered(t: Table, timeout: int, p: InPacket, bridge: seq<byte>)
    requires Inv(t, bridge) && WellFormed(p) && p.data[0] == IDENTIFY
    ensures var sent := HandleIdentify(t, timeout, p).sent;
            && (Packet(p.src, FLAG_MGT, [CMD_OK]) in sent <==>
                  exists k | 0 <= k < |t| :: Expects(t[k], PacketId(p)) && t[k].netup)
            && (Packet(p.src, FLAG_MGT + FLAG_NOACK, [CMD_RESET]) in sent <==>
                  !exists k | 0 <= k < |t| :: Expects(t[k], PacketId(p)))
  {
    var id := PacketId(p);
    var slot := ById(t, id);
    var ok, reset := Packet(p.src, FLAG_MGT, [CMD_OK]), Packet(p.src, FLAG_MGT + FLAG_NOACK, [CMD_RESET]);
    assert OK(p.src)[0] == ok && OK(p.src)[1] == Packet(p.src, FLAG_MGT, [CMD_VERSION]);
    if slot.Some? {
      var i := slot.value;
      forall k | 0 <= k < |t| && k != i
        ensures !Expects(t[k], id)
      {
        assert Apart(t[k], t[i]);
      }
      assert t[i].state == State.Identify ==> Expects(t[i], id);
      GroupCommandsExactly(ToByte(t[i].busadr), t[i].groups, |t[i].groups|, ok);
      GroupCommandsExactly(ToByte(t[i].busadr), t[i].groups, |t[i].groups|, reset);
    }
  }
}
