/** The address allocator of src/busmgt.c: how good its answers are, and what happens when it runs out. */
module Addresses {
  import opened Bytes
  import opened Nodes
  import opened Packets
  import opened BusMgt
  import opened Lifecycle
  import Serial

  // ----- Addresses -----

  function ActiveSlots(t: Table): set<nat> {
    set i | 0 <= i < |t| && !t[i].free && t[i].active
  }

  function Holders(t: Table, bound: int): set<nat> {
    set i | i in ActiveSlots(t) && FIRST_ADR <= t[i].busadr < bound
  }

  lemma {:induction false} HoldersOfRange(t: Table, n: nat)
    requires forall a | FIRST_ADR <= a < FIRST_ADR + n :: ByBusAdr(t, a).Some?
    ensures |Holders(t, FIRST_ADR + n)| >= n
  {
    if n > 0 {
      var last := FIRST_ADR + n - 1;
      HoldersOfRange(t, n - 1);
      var holder := ByBusAdr(t, last).value;
      assert holder !in Holders(t, last) && holder in Holders(t, last + 1);
      assert Holders(t, last) + {holder} <= Holders(t, last + 1);
      SubsetSize(Holders(t, last) + {holder}, Holders(t, last + 1));
    }
  }

  lemma {:induction false} SubsetSize(a: set<nat>, b: set<nat>)
    requires a <= b
    ensures |a| <= |b|
  {
    if a != {} {
      var x :| x in a;
      SubsetSize(a - {x}, b - {x});
    }
  }

  /** The allocator returns the least address no active node holds; -1 says that all 252 are held. */
  lemma AllocatorIsLeast(t: Table, adr: int)
    ensures FreeAdr(t) == adr && adr != -1 <==>
            && FIRST_ADR <= adr <= LAST_ADR && ByBusAdr(t, adr).None?
            && forall a | FIRST_ADR <= a < adr :: ByBusAdr(t, a).Some?
    ensures FreeAdr(t) == -1 <==> forall a | FIRST_ADR <= a <= LAST_ADR :: ByBusAdr(t, a).Some?
  {
  }

  /** Pigeonhole: when every address below adr is held, at least that many nodes are active. */
  lemma {:induction false} HeldBelow(t: Table, adr: int)
    requires FIRST_ADR <= adr <= LAST_ADR + 1
    requires forall a | FIRST_ADR <= a < adr :: ByBusAdr(t, a).Some?
    ensures adr - FIRST_ADR <= |ActiveSlots(t)|
  {
    HoldersOfRange(t, adr - FIRST_ADR);
    SubsetSize(Holders(t, adr), ActiveSlots(t));
  }

  /** The address handed out is at most 3 plus the number of active nodes. */
  lemma {:induction false} AllocatorBound(t: Table)
    ensures FreeAdr(t) <= FIRST_ADR + |ActiveSlots(t)|
  {
    if FreeAdr(t) != -1 {
      HeldBelow(t, FreeAdr(t));
    }
  }

  /** The allocator gives up only with 252 active nodes, and with fewer than 125 it stays below the groups. */
  lemma {:induction false} AllocatorLimits(t: Table)
    ensures FreeAdr(t) == -1 ==> |ActiveSlots(t)| >= ADDRESSES
    ensures |ActiveSlots(t)| < 125 ==> FIRST_ADR <= FreeAdr(t) < 0x80
  {
    if FreeAdr(t) == -1 {
      HeldBelow(t, LAST_ADR + 1);
    }
    AllocatorBound(t);
  }

  // ----- Running out of addresses -----

  predicate InRange(t: Table) {
    forall i | 0 <= i < |t| :: t[i].active && t[i].kind == Ordinary ==> FIRST_ADR <= t[i].busadr <= LAST_ADR
  }

  lemma DistinctAddresses(t: Table, bridge: seq<byte>)
    requires Inv(t, bridge) && InRange(t)
    ensures forall i, j | 0 <= i < |t| && 0 <= j < |t| && i != j ::
              t[i].active && t[j].active ==> t[i].busadr != t[j].busadr
  {
    forall i, j | 0 <= i < |t| && 0 <= j < |t| && i != j && t[i].active && t[j].active
      ensures t[i].busadr != t[j].busadr
    {
      assert Apart(t[i], t[j]) && SlotOk(t[i], bridge);
    }
  }

  /** The ordinary nodes that take part; each of them should hold an address. */
  function OrdinaryNodes(t: Table): set<nat> {
    set i | 0 <= i < |t| && t[i].active && t[i].kind == Ordinary
  }

  function Between(lo: int, hi: int): (adrs: set<int>)
    requires lo <= hi
    ensures |adrs| == hi - lo && forall a :: a in adrs <==> lo <= a < hi
    decreases hi - lo
  {
    if lo == hi then {} else Between(lo, hi - 1) + {hi - 1}
  }

  /** Slots whose addresses are distinct and lie in a set are no more than that set has members. */
  lemma {:induction false} DistinctlyHeld(t: Table, slots: set<nat>, adrs: set<int>)
    requires forall i | i in slots :: i < |t| && t[i].busadr in adrs
    requires forall i, j | i in slots && j in slots && i != j :: t[i].busadr != t[j].busadr
    ensures |slots| <= |adrs|
    decreases |slots|
  {
    if slots != {} {
      var i :| i in slots;
      DistinctlyHeld(t, slots - {i}, adrs - {t[i].busadr});
    }
  }

  /** An address no active node holds leaves at most 251 to the ordinary ones. */
  lemma UnheldLeavesRoom(t: Table, adr: int, bridge: seq<byte>)
    requires Inv(t, bridge) && InRange(t)
    requires FIRST_ADR <= adr <= LAST_ADR && ByBusAdr(t, adr).None?
    ensures |OrdinaryNodes(t)| < ADDRESSES
  {
    var all := Between(FIRST_ADR, LAST_ADR + 1);
    forall i | i in OrdinaryNodes(t)
      ensures t[i].busadr in all - {adr}
    {
      assert SlotOk(t[i], bridge);
    }
    DistinctAddresses(t, bridge);
    DistinctlyHeld(t, OrdinaryNodes(t), all - {adr});
  }

  /** Some address is free exactly while fewer than 252 ordinary nodes are active. */
  lemma RoomExactly(t: Table, bridge: seq<byte>)
    requires Inv(t, bridge) && InRange(t)
    ensures FreeAdr(t) != -1 <==> |OrdinaryNodes(t)| < ADDRESSES
  {
    if FreeAdr(t) != -1 {
      UnheldLeavesRoom(t, FreeAdr(t), bridge);
    } else {
      HoldersOfRange(t, ADDRESSES);
      assert Holders(t, FIRST_ADR + ADDRESSES) <= OrdinaryNodes(t) by {
        forall i | i in Holders(t, FIRST_ADR + ADDRESSES)
          ensures i in OrdinaryNodes(t)
        {
          assert SlotOk(t[i], bridge);
        }
      }
      SubsetSize(Holders(t, FIRST_ADR + ADDRESSES), OrdinaryNodes(t));
    }
  }

  /** A slot that is handed out holds no address yet, so the allocator answers as before. */
  lemma SlotHoldsNothing(t: Table, id: seq<byte>, bridge: seq<byte>)
    requires Inv(t, bridge) && SlotFor(t, id).Some?
    ensures var t1 := SlotFor(t, id).value.0;
            FreeAdr(t1) == FreeAdr(t)
  {
    SlotForFacts(t, id, bridge);
    var (t1, i) := SlotFor(t, id).value;
    forall a | FIRST_ADR <= a <= LAST_ADR
      ensures ByBusAdr(t1, a).None? <==> ByBusAdr(t, a).None?
    {
      assert t[i].free ==> SlotOk(t[i], bridge);
      SameHolders(t, t1, i, a);
    }
    SameAnswer(t, t1, FIRST_ADR);
  }

  lemma {:induction false} SameAnswer(t: Table, t1: Table, adr: int)
    requires FIRST_ADR <= adr <= LAST_ADR + 1
    requires forall a | adr <= a <= LAST_ADR :: ByBusAdr(t1, a).None? <==> ByBusAdr(t, a).None?
    ensures FreeAdrFrom(t1, adr) == FreeAdrFrom(t, adr)
    decreases LAST_ADR + 1 - adr
  {
    if adr <= LAST_ADR && ByBusAdr(t, adr).Some? {
      SameAnswer(t, t1, adr + 1);
    }
  }

  lemma SameHolders(t: Table, t1: Table, i: nat, a: int)
    requires i < |t| == |t1| && t1 == t[i := t1[i]]
    requires t1 == t || (!t[i].active && !t1[i].active)
    ensures ByBusAdr(t1, a).None? <==> ByBusAdr(t, a).None?
  {
    assert forall j | 0 <= j < |t| && j != i :: t1[j] == t[j];
  }

  /** A discover finds an address for its node, or has no slot to give it. */
  predicate AddressLeft(t: Table, e: Event) {
    e.Arrived? && WellFormed(e.p) && e.p.data[0] == DISCOVER ==>
      SlotFor(t, PacketId(e.p)).None? || |OrdinaryNodes(t)| < ADDRESSES
  }

  /** The slot a discover fills gets the answer of the allocator for the table before it. */
  lemma DiscoverAssigns(t: Table, timeout: int, p: InPacket, bridge: seq<byte>) returns (i: nat)
    requires Inv(t, bridge) && WellFormed(p) && p.data[0] == DISCOVER && SlotFor(t, PacketId(p)).Some?
    ensures var u := HandleDiscover(t, timeout, p).t;
            && i < |t| == |u| && u == t[i := u[i]]
            && u[i].active && u[i].kind == Ordinary && u[i].busadr == FreeAdr(t)
  {
    var id := PacketId(p);
    i := SlotFor(t, id).value.1;
    RegisterFacts(t, id, Ordinary, 0, bridge);
    SlotHoldsNothing(t, id, bridge);
  }

  lemma OneSlotInRange(t: Table, u: Table, i: nat)
    requires i < |t| == |u| && u == t[i := u[i]] && InRange(t) && u[i].active && u[i].kind == Ordinary
    ensures InRange(u) <==> FIRST_ADR <= u[i].busadr <= LAST_ADR
  {
  }

  lemma DiscoverInRange(t: Table, timeout: int, p: InPacket, bridge: seq<byte>)
    requires Inv(t, bridge) && WellFormed(p) && p.data[0] == DISCOVER && InRange(t)
    ensures InRange(HandleDiscover(t, timeout, p).t) <==> AddressLeft(t, Arrived(p))
  {
    if SlotFor(t, PacketId(p)).Some? {
      var i := DiscoverAssigns(t, timeout, p, bridge);
      RoomExactly(t, bridge);
      FreeAdrFacts(t);
      OneSlotInRange(t, HandleDiscover(t, timeout, p).t, i);
    }
  }

  lemma BridgeInRange(t: Table, timeout: int, p: InPacket, bridge: seq<byte>)
    requires Inv(t, bridge) && WellFormed(p) && p.data[0] == BRIDGE_ID
    requires p.src == BRIDGE && PacketId(p) == bridge && InRange(t)
    ensures var o := HandleBridge(t, timeout, p); o.Handled? ==> InRange(o.t)
  {
    BridgeCrashesExactly(t, timeout, p, bridge);
    if Register(t, bridge, Kind.Bridge, BRIDGE).Some? {
      RegisterFacts(t, bridge, Kind.Bridge, BRIDGE, bridge);
      BridgeSlot(t, p, bridge);
    }
  }

  lemma IdentifyInRange(t: Table, timeout: int, p: InPacket, bridge: seq<byte>)
    requires Inv(t, bridge) && WellFormed(p) && p.data[0] == IDENTIFY && InRange(t)
    ensures InRange(HandleIdentify(t, timeout, p).t)
  {
    var slot := ById(t, PacketId(p));
    assert slot.Some? ==> SlotOk(t[slot.value], bridge);
  }

  lemma StepInRange(t: Table, timeout: int, e: Event, u: Table, bridge: seq<byte>)
    requires Inv(t, bridge) && Legal(e, bridge) && StepsTo(t, timeout, e, u) && InRange(t)
    ensures InRange(u) <==> AddressLeft(t, e)
  {
    if e.Arrived? && e.p.data[0] == DISCOVER {
      DiscoverInRange(t, timeout, e.p, bridge);
    } else if e.Arrived? && e.p.data[0] == BRIDGE_ID {
      BridgeInRange(t, timeout, e.p, bridge);
    } else if e.Arrived? && e.p.data[0] == IDENTIFY {
      IdentifyInRange(t, timeout, e.p, bridge);
    }
  }

  lemma RunStepInRange(ts: seq<Table>, es: seq<Event>, timeout: int, bridge: seq<byte>, k: nat)
    requires IsRun(ts, es, timeout, bridge) && k < |es|
    ensures InRange(ts[k]) ==> (InRange(ts[k + 1]) <==> AddressLeft(ts[k], es[k]))
  {
    ReachableInv(ts, es, timeout, bridge, k);
    assert Legal(es[k], bridge) && StepsTo(ts[k], timeout, es[k], ts[k + 1]);
    if InRange(ts[k]) {
      StepInRange(ts[k], timeout, es[k], ts[k + 1], bridge);
    }
  }

  /** All ordinary nodes hold an address in 3..254 in each of the first n + 1 tables. */
  ghost predicate StaysInRange(ts: seq<Table>, n: nat)
    requires n < |ts|
  {
    forall m | 0 <= m <= n :: InRange(ts[m])
  }

  /** Each discover among the first n events that got a slot came while fewer than 252 ordinary nodes were active. */
  ghost predicate NeverFull(ts: seq<Table>, es: seq<Event>, n: nat)
    requires n <= |es| && n < |ts|
  {
    forall m | 0 <= m < n :: AddressLeft(ts[m], es[m])
  }

  lemma {:induction false} RangeKept(ts: seq<Table>, es: seq<Event>, timeout: int, bridge: seq<byte>, n: nat)
    requires IsRun(ts, es, timeout, bridge) && n < |ts|
    ensures StaysInRange(ts, n) <==> NeverFull(ts, es, n)
    decreases n
  {
    if n == 0 {
      assert Configured(ts[0]) && InRange(ts[0]);
    } else {
      RangeKept(ts, es, timeout, bridge, n - 1);
      RunStepInRange(ts, es, timeout, bridge, n - 1);
      assert StaysInRange(ts, n) <==> StaysInRange(ts, n - 1) && InRange(ts[n - 1]) && InRange(ts[n]);
      assert NeverFull(ts, es, n) <==> NeverFull(ts, es, n - 1) && AddressLeft(ts[n - 1], es[n - 1]);
    }
  }

  /**
    * All through a run the ordinary nodes hold addresses in 3..254 exactly if each discover that got a slot came
    * while fewer than 252 of them were active; and then no two active nodes share an address.
    */
  lemma {:induction false} AddressesInRange(ts: seq<Table>, es: seq<Event>, timeout: int, bridge: seq<byte>, n: nat)
    requires IsRun(ts, es, timeout, bridge) && n < |ts|
    ensures StaysInRange(ts, n) <==> NeverFull(ts, es, n)
    ensures StaysInRange(ts, n) ==>
              forall i, j | 0 <= i < |ts[n]| && 0 <= j < |ts[n]| && i != j ::
                ts[n][i].active && ts[n][j].active ==> ts[n][i].busadr != ts[n][j].busadr
  {
    RangeKept(ts, es, timeout, bridge, n);
    ReachableInv(ts, es, timeout, bridge, n);
    if InRange(ts[n]) {
      DistinctAddresses(ts[n], bridge);
    }
  }

  /** A slot nobody has used. */
  function Unused(): (n: Node)
    ensures n.free && !n.active && n.state == TimedOut && n.id == [] && Wiped(n) == n
  {
    Wiped(Node(NoKind, [], true, false, TimedOut, 0, 0, false, false, [], []))
  }

  /** The k-th of many nodes, and its discover packet: all zero but for an id of one byte. */
  function Hello(k: nat): Event
    requires k < 255
  {
    Arrived(InPacket(0, [DISCOVER, 0, 0, 0, 0, 0, 0, k + 1]))
  }

  function Joined(k: nat, timeout: int): Node
    requires k < 255
  {
    Unused().(kind := Ordinary, id := [k + 1], free := false, active := true, state := State.Identify,
            timeout := timeout, busadr := if k < ADDRESSES then FIRST_ADR + k else -1)
  }

  function Crowd(n: nat, timeout: int): (t: Table)
    requires n <= 255
    ensures |t| == MAX_NODE
    ensures forall k | 0 <= k < MAX_NODE :: t[k] == if k < n then Joined(k, timeout) else Unused()
  {
    seq(MAX_NODE, k requires 0 <= k < MAX_NODE => if k < n then Joined(k, timeout) else Unused())
  }

  lemma CrowdSlot(n: nat, timeout: int)
    requires n < 255
    ensures SlotFor(Crowd(n, timeout), [n + 1]) ==
            Some((Crowd(n, timeout)[n := Unused().(id := [n + 1], free := false)], n))
  {
    var t := Crowd(n, timeout);
    assert forall k | 0 <= k < n :: t[k].id == [k + 1];
    assert forall k | 0 <= k < n :: t[k].id[0] != n + 1;
    assert ById(t, [n + 1]).None?;
    assert forall k | 0 <= k < n :: !t[k].free;
    assert t[n].free;
    assert FreeSlot(t) == Some(n);
    assert Wiped(Unused()) == Unused();
  }

  lemma Held(t: Table, a: int, i: nat)
    requires i < |t| && !t[i].free && t[i].active && t[i].busadr == a
    ensures ByBusAdr(t, a).Some?
  {
  }

  lemma Unheld(t: Table, a: int)
    requires forall i | 0 <= i < |t| :: !t[i].active || t[i].busadr != a
    ensures ByBusAdr(t, a).None?
  {
  }

  lemma CrowdAddress(n: nat, timeout: int)
    requires n < 255
    ensures FreeAdr(Crowd(n, timeout)[n := Unused().(id := [n + 1], free := false)]) ==
            if n < ADDRESSES then FIRST_ADR + n else -1
  {
    var t := Crowd(n, timeout)[n := Unused().(id := [n + 1], free := false)];
    var held := if n < ADDRESSES then n else ADDRESSES;
    forall a | FIRST_ADR <= a < FIRST_ADR + held
      ensures ByBusAdr(t, a).Some?
    {
      assert t[a - FIRST_ADR] == Joined(a - FIRST_ADR, timeout);
      Held(t, a, a - FIRST_ADR);
    }
    if n < ADDRESSES {
      Unheld(t, FIRST_ADR + n);
      AllocatorIsLeast(t, FIRST_ADR + n);
    } else {
      AllocatorIsLeast(t, -1);
    }
  }

  lemma CrowdGrows(n: nat, timeout: int, bridge: seq<byte>)
    requires n < 255
    ensures Legal(Hello(n), bridge) && StepsTo(Crowd(n, timeout), timeout, Hello(n), Crowd(n + 1, timeout))
  {
    var p := Hello(n).p;
    assert p.data[7..] == [n + 1] && CString([n + 1]) == [n + 1];
    assert Classes(p.data[3..7]) == seq(CLASSES, _ => 0);
    CrowdSlot(n, timeout);
    CrowdAddress(n, timeout);
    assert HandleDiscover(Crowd(n, timeout), timeout, p).t[n] == Joined(n, timeout);
    assert HandleDiscover(Crowd(n, timeout), timeout, p).t == Crowd(n + 1, timeout);
  }

  /** With 254 nodes on the bus two of them are active without an address: their commands go to broadcast. */
  lemma AddressesRunOut(timeout: int, bridge: seq<byte>) returns (ts: seq<Table>, es: seq<Event>)
    ensures IsRun(ts, es, timeout, bridge) && |es| == 254
    ensures var t := ts[|es|];
            && |t| == MAX_NODE && t[252].active && t[253].active
            && t[252].busadr == t[253].busadr == -1 && ToByte(t[252].busadr) == BROADCAST
  {
    es := seq(254, k requires 0 <= k < 254 => Hello(k));
    ts := seq(255, n requires 0 <= n < 255 => Crowd(n, timeout));
    forall j | 0 <= j < |es|
      ensures Legal(es[j], bridge) && StepsTo(ts[j], timeout, es[j], ts[j + 1])
    {
      CrowdGrows(j, timeout, bridge);
    }
  }

  // ----- What a discover puts on the wire -----

  /** The interval command carries the two interval bytes of the discover packet unchanged. */
  lemma IntervalIsRepeated(d: Serial.Decoder, adr: byte, p: InPacket, cls: byte)
    requires !d.escaped && Serial.InBounds(d) && WellFormed(p) && p.data[0] == DISCOVER
    ensures |Invitation(adr, p)| == 2
    ensures var frames := Serial.Delivered(d, Serial.Frame(Packed(Invitation(adr, p)[0], cls))).0;
            && |frames| == 1
            && Unpacked(frames[0]) ==
               Some(Received(HOST, BRIDGE, FLAG_MGT, [CMD_INTERVAL, adr, p.data[1], p.data[2]]))
    ensures var frames := Serial.Delivered(d, Serial.Frame(Packed(Invitation(adr, p)[1], cls))).0;
            && |frames| == 1
            && Unpacked(frames[0]) ==
               Some(Received(HOST, BROADCAST, FLAG_MGT, [CMD_ADDRESS] + ([adr] + PacketId(p) + [0])))
  {
    assert Interval(p) / 256 == p.data[1] && Interval(p) % 256 == p.data[2];
    CommandReachesBridge(d, BRIDGE, CMD_INTERVAL, [adr, p.data[1], p.data[2]], cls);
    CommandReachesBridge(d, BROADCAST, CMD_ADDRESS, [adr] + PacketId(p) + [0], cls);
    assert [CMD_INTERVAL] + [adr, p.data[1], p.data[2]] == [CMD_INTERVAL, adr, p.data[1], p.data[2]];
  }
}
