/** What each event of the bus management does to the table and puts on the wire, in bytes (src/busmgt.c, src/mgt.c). */
module Handlers {
  import opened Bytes
  import opened Nodes
  import opened Packets
  import opened BusMgt
  import opened Lifecycle
  import Addresses
  import Serial

  // ----- Packets in bytes -----

  lemma {:induction false} TextEnds(text: seq<byte>, rest: seq<byte>)
    requires 0 !in text && (rest == [] || rest[0] == 0)
    ensures CString(text + rest) == text
    decreases |text|
  {
    if text == [] {
      assert text + rest == rest;
    } else {
      assert (text + rest)[1..] == text[1..] + rest;
      TextEnds(text[1..], rest);
    }
  }

  /** The identifier follows six bytes of a discover, four of a bridge packet and none of the others, up to a zero. */
  lemma IdIsText(src: byte, kind: byte, fields: seq<byte>, text: seq<byte>, rest: seq<byte>)
    requires WellFormed(InPacket(src, [kind] + fields + (text + rest)))
    requires |fields| == if kind == Ascii('D') then 6 else if kind == Ascii('B') then 4 else 0
    requires 0 !in text && (rest == [] || rest[0] == 0)
    ensures PacketId(InPacket(src, [kind] + fields + (text + rest))) == text
  {
    var data := [kind] + fields + (text + rest);
    assert data[1 + |fields|..] == text + rest;
    TextEnds(text, rest);
  }

  /** The serial frame of q, whatever its class byte, is read by the bridge as r. */
  predicate IsRead(d: Serial.Decoder, q: Packet, cls: byte, r: Received) {
    && |q.data| <= DATA_LEN
    && var frames := Serial.Delivered(d, Serial.Frame(Packed(q, cls))).0;
       |frames| == 1 && Unpacked(frames[0]) == Some(r)
  }

  /** Four classes, and none in the other 28 entries. */
  predicate HasClasses(n: Node, four: seq<byte>) {
    |n.classes| == 32 && n.classes[..4] == four && forall j | 4 <= j < 32 :: n.classes[j] == 0
  }

  /** Nothing but slot i differs. */
  predicate OnlySlot(t: Table, u: Table, i: nat) {
    i < |t| == |u| && forall j | 0 <= j < |t| && j != i :: u[j] == t[j]
  }

  predicate IsKnown(t: Table, id: seq<byte>) {
    exists k | 0 <= k < |t| :: !t[k].free && t[k].id == id
  }

  predicate HasRoomFor(t: Table, id: seq<byte>) {
    IsKnown(t, id) || exists k | 0 <= k < |t| :: t[k].free
  }

  // ----- Registration -----

  /**
    * Registration succeeds iff the id is known or a slot is free. It fills in that one slot; a known node keeps its
    * network state, groups and classes, a new one starts in the first free slot with its network down, none of its 32
    * groups set and all classes zero.
    */
  lemma RegistersNode(t: Table, id: seq<byte>, kind: Kind, busadr: byte, bridge: seq<byte>)
    requires Inv(t, bridge)
    ensures Register(t, id, kind, busadr).Some? <==> HasRoomFor(t, id)
    ensures Register(t, id, kind, busadr).Some? ==>
              var (u, i) := Register(t, id, kind, busadr).value;
              && OnlySlot(t, u, i) && ById(u, id) == Some(i)
              && !u[i].free && u[i].active && u[i].kind == kind && u[i].id == id
              && u[i].busadr == (if busadr == 0 then FreeAdr(t) else busadr)
              && u[i].busup == t[i].busup && u[i].state == t[i].state && u[i].timeout == t[i].timeout
              && (IsKnown(t, id) ==>
                    && !t[i].free && t[i].id == id
                    && u[i].netup == t[i].netup && u[i].groups == t[i].groups && u[i].classes == t[i].classes)
              && (!IsKnown(t, id) ==>
                    && t[i].free && (forall j | 0 <= j < i :: !t[j].free)
                    && !u[i].netup && |u[i].groups| == |u[i].classes| == 32
                    && forall j | 0 <= j < 32 :: u[i].groups[j] == -1 && u[i].classes[j] == 0)
  {
    if SlotFor(t, id).Some? {
      RegisterFacts(t, id, kind, busadr, bridge);
      Addresses.SlotHoldsNothing(t, id, bridge);
      var (u, i) := Register(t, id, kind, busadr).value;
      FoundAgain(t, u, i, id);
      assert ById(t, id).Some? ==> IsKnown(t, id);
    }
  }

  lemma FoundAgain(t: Table, u: Table, i: nat, id: seq<byte>)
    requires IsSlotOf(t, i, id) && OnlySlot(t, u, i) && !u[i].free && u[i].id == id
    ensures ById(u, id) == Some(i)
  {
    forall j | 0 <= j < |u| && j != i
      ensures u[j].free || u[j].id != id
    {
      assert u[j] == t[j];
    }
  }

  // ----- Discover -----

  /**
    * A discover that finds no room changes and sends nothing. Otherwise its node is waiting to be identified, with a
    * fresh timer, a free address and the classes of the packet, and what goes out is that address.
    */
  lemma DiscoverAdmits(t: Table, timeout: int, p: InPacket, bridge: seq<byte>)
    requires Inv(t, bridge) && WellFormed(p) && p.data[0] == Ascii('D')
    ensures var (id, o) := (PacketId(p), Next(t, timeout, Arrived(p)));
            && o.Handled? && (!HasRoomFor(t, id) ==> o.t == t && o.sent == [])
            && (HasRoomFor(t, id) ==>
                  && ById(o.t, id).Some?
                  && var i := ById(o.t, id).value;
                     var n := o.t[i];
                     && OnlySlot(t, o.t, i) && n.active && n.kind == Ordinary && n.busadr == FreeAdr(t)
                     && n.state == State.Identify && n.timeout == timeout && HasClasses(n, p.data[3..7])
                     && n.netup == (IsKnown(t, id) && t[i].netup))
  {
    var id := PacketId(p);
    RegistersNode(t, id, Ordinary, 0, bridge);
    if HasRoomFor(t, id) {
      var (t1, i) := Register(t, id, Ordinary, 0).value;
      var u := Next(t, timeout, Arrived(p)).t;
      RegisterFacts(t, id, Ordinary, 0, bridge);
      FoundAgain(t, u, i, id);
    }
  }

  /**
    * The bridge is told the query interval, and everyone which node has the address: both packets carry the address
    * that the table now has for the node.
    */
  lemma DiscoverAnnounces(t: Table, timeout: int, p: InPacket, bridge: seq<byte>, d: Serial.Decoder, cls: byte)
    requires Inv(t, bridge) && WellFormed(p) && p.data[0] == Ascii('D') && HasRoomFor(t, PacketId(p))
    requires !d.escaped && Serial.InBounds(d)
    ensures var (id, o) := (PacketId(p), Next(t, timeout, Arrived(p)));
            && o.Handled? && ById(o.t, id).Some? && |o.sent| == 2
            && var adr := ToByte(o.t[ById(o.t, id).value].busadr);
               && IsRead(d, o.sent[0], cls, Received(1, 2, 16, [Ascii('q'), adr, p.data[1], p.data[2]]))
               && IsRead(d, o.sent[1], cls, Received(1, 255, 16, [Ascii('S'), adr] + id + [0]))
  {
    var id := PacketId(p);
    RegistersNode(t, id, Ordinary, 0, bridge);
    DiscoverAdmits(t, timeout, p, bridge);
    var (t1, i) := Register(t, id, Ordinary, 0).value;
    var o := Next(t, timeout, Arrived(p));
    var adr := ToByte(o.t[i].busadr);
    assert ById(o.t, id) == Some(i) by {
      RegisterFacts(t, id, Ordinary, 0, bridge);
      FoundAgain(t, o.t, i, id);
    }
    assert o.sent == Invitation(adr, p);
    InvitationIsRead(d, adr, p, cls);
  }

  lemma InvitationIsRead(d: Serial.Decoder, adr: byte, p: InPacket, cls: byte)
    requires WellFormed(p) && p.data[0] == DISCOVER && !d.escaped && Serial.InBounds(d)
    ensures var sent := Invitation(adr, p);
            && |sent| == 2
            && IsRead(d, sent[0], cls, Received(1, 2, 16, [Ascii('q'), adr, p.data[1], p.data[2]]))
            && IsRead(d, sent[1], cls, Received(1, 255, 16, [Ascii('S'), adr] + PacketId(p) + [0]))
  {
    Addresses.IntervalIsRepeated(d, adr, p, cls);
    assert [CMD_ADDRESS] + ([adr] + PacketId(p) + [0]) == [Ascii('S'), adr] + PacketId(p) + [0];
  }

  // ----- Greeting -----

  /** The groups that are set, in order. */
  function SetGroups(groups: seq<int>): seq<int> {
    if groups == [] then []
    else
      var g := groups[|groups| - 1];
      SetGroups(groups[..|groups| - 1]) + (if g != -1 then [g] else [])
  }

  /** One command A for each group of node n, in order and to the node; then O and V to the sender. */
  predicate Greets(sent: seq<Packet>, n: Node, src: byte) {
    var groups := SetGroups(n.groups);
    && |sent| == |groups| + 2
    && (forall i | 0 <= i < |groups| :: sent[i] == Packet(ToByte(n.busadr), 16, [Ascii('A'), ToByte(groups[i])]))
    && sent[|groups|] == Packet(src, 16, [Ascii('O')]) && sent[|groups| + 1] == Packet(src, 16, [Ascii('V')])
  }

  lemma {:induction false} GroupsInOrder(adr: byte, groups: seq<int>, n: nat)
    requires n <= |groups|
    ensures var (sent, set_) := (GroupCommands(adr, groups, n), SetGroups(groups[..n]));
            && |sent| == |set_|
            && forall i | 0 <= i < |set_| :: sent[i] == Packet(adr, 16, [Ascii('A'), ToByte(set_[i])])
  {
    if n > 0 {
      GroupsInOrder(adr, groups, n - 1);
      assert groups[..n][..n - 1] == groups[..n - 1] && groups[..n][n - 1] == groups[n - 1];
      assert [CMD_GROUP] + [ToByte(groups[n - 1])] == [Ascii('A'), ToByte(groups[n - 1])];
    }
  }

  lemma GreetingGreets(n: Node, src: byte)
    ensures Greets(Greeting(n, src), n, src)
  {
    GroupsInOrder(ToByte(n.busadr), n.groups, |n.groups|);
    assert n.groups[..|n.groups|] == n.groups;
    assert [CMD_OK] + [] == [Ascii('O')] && [CMD_VERSION] + [] == [Ascii('V')];
    assert OK(src) == [Packet(src, 16, [Ascii('O')]), Packet(src, 16, [Ascii('V')])];
  }

  predicate IsReset(sent: seq<Packet>, src: byte) {
    sent == [Packet(src, 24, [Ascii('r')])]
  }

  /**
    * An identify that a node with its network up is waiting for greets it and puts it into normal operation; with the
    * network down nothing happens; and if no node is waiting for it the sender is reset.
    */
  lemma IdentifyWelcomes(t: Table, timeout: int, p: InPacket, bridge: seq<byte>)
    requires Inv(t, bridge) && WellFormed(p) && p.data[0] == Ascii('I')
    ensures var (id, o) := (PacketId(p), Next(t, timeout, Arrived(p)));
            && o.Handled?
            && (forall k | 0 <= k < |t| && Expects(t[k], id) && t[k].netup ::
                  && Greets(o.sent, t[k], p.src)
                  && o.t == t[k := t[k].(state := Normal, timeout := timeout, busup := true)])
            && (forall k | 0 <= k < |t| && Expects(t[k], id) && !t[k].netup :: o == Handled(t, []))
            && ((forall k | 0 <= k < |t| :: !Expects(t[k], id)) ==> o.t == t && IsReset(o.sent, p.src))
  {
    var id := PacketId(p);
    var slot := ById(t, id);
    if slot.Some? {
      var i := slot.value;
      GreetingGreets(t[i], p.src);
      assert SlotOk(t[i], bridge);
      forall k | 0 <= k < |t| && Expects(t[k], id)
        ensures k == i
      {
        assert k != i ==> Apart(t[k], t[i]);
      }
      assert t[i].state == State.Identify ==> Expects(t[i], id);
    }
  }

  /** A bridge packet that does not crash leaves the bridge up at address 2 in normal operation, and greets it. */
  lemma BridgeWelcomes(t: Table, timeout: int, p: InPacket, bridge: seq<byte>)
    requires Inv(t, bridge) && WellFormed(p) && p.data[0] == Ascii('B') && p.src == 2 && PacketId(p) == bridge
    ensures var o := Next(t, timeout, Arrived(p));
            && (o.Handled? <==> HasRoomFor(t, bridge))
            && (o.Handled? ==>
                  && ById(o.t, bridge).Some?
                  && var i := ById(o.t, bridge).value;
                     var n := o.t[i];
                     && OnlySlot(t, o.t, i) && n.active && n.kind == Kind.Bridge && n.busadr == 2 && n.busup
                     && n.state == Normal && n.timeout == timeout && HasClasses(n, p.data[1..5])
                     && Greets(o.sent, n, 2))
  {
    RegistersNode(t, bridge, Kind.Bridge, BRIDGE, bridge);
    BridgeCrashesExactly(t, timeout, p, bridge);
    if HasRoomFor(t, bridge) {
      BridgeSlot(t, p, bridge);
      var (t1, i) := Register(t, bridge, Kind.Bridge, BRIDGE).value;
      var u := Next(t, timeout, Arrived(p)).t;
      RegisterFacts(t, bridge, Kind.Bridge, BRIDGE, bridge);
      FoundAgain(t, u, i, bridge);
      GreetingGreets(t1[i], 2);
    }
  }

  // ----- Keep-alive and version -----

  predicate IsActiveAt(n: Node, adr: byte) {
    !n.free && n.active && n.busadr == adr as int
  }

  /** A keep-alive restarts the timer of the node at its address and nothing else; from anywhere else it is reset. */
  lemma AliveAnswers(t: Table, timeout: int, p: InPacket, bridge: seq<byte>)
    requires Inv(t, bridge) && WellFormed(p) && p.data[0] == Ascii('A')
    ensures var o := Next(t, timeout, Arrived(p));
            && o.Handled?
            && (forall k | 0 <= k < |t| && IsActiveAt(t[k], p.src) ::
                  o == Handled(t[k := t[k].(timeout := timeout)], []))
            && ((forall k | 0 <= k < |t| :: !IsActiveAt(t[k], p.src)) ==> o.t == t && IsReset(o.sent, p.src))
  {
    var slot := ByBusAdr(t, p.src);
    if slot.Some? {
      forall k | 0 <= k < |t| && IsActiveAt(t[k], p.src)
        ensures k == slot.value
      {
        assert k != slot.value ==> Apart(t[k], t[slot.value]);
      }
      assert IsActiveAt(t[slot.value], p.src);
    }
  }

  /** A version packet changes nothing; from an address nobody holds it makes the handler follow a null pointer. */
  lemma VersionCrashesExactly(t: Table, timeout: int, p: InPacket)
    requires WellFormed(p) && p.data[0] == Ascii('V')
    ensures var o := Next(t, timeout, Arrived(p));
            && (o.NullDeref? <==> forall k | 0 <= k < |t| :: !IsActiveAt(t[k], p.src))
            && (o.Handled? ==> o == Handled(t, []))
  {
    Letters();
    var slot := ByBusAdr(t, p.src);
    if slot.Some? {
      assert IsActiveAt(t[slot.value], p.src);
    }
  }

  lemma OthersAreIgnored(t: Table, timeout: int, p: InPacket)
    requires WellFormed(p)
    requires p.data[0] != Ascii('D') && p.data[0] != Ascii('I') && p.data[0] != Ascii('V')
    requires p.data[0] != Ascii('A') && p.data[0] != Ascii('B')
    ensures Next(t, timeout, Arrived(p)) == Handled(t, [])
  {
    Letters();
  }

  lemma Letters()
    ensures Ascii('D') == DISCOVER && Ascii('I') == IDENTIFY && Ascii('V') == VERSION
    ensures Ascii('A') == ALIVE && Ascii('B') == BRIDGE_ID
  {
  }

  // ----- Tick -----

  /** Who is identifying or in normal operation loses a tick or, at zero, its activity; nothing else is touched. */
  lemma TickTouches(t: Table, timeout: int, k: nat)
    requires k < |t|
    ensures var o := Next(t, timeout, Event.Tick);
            && o.Handled? && o.sent == [] && |o.t| == |t|
            && var (n, u) := (t[k], o.t[k]);
               && u.id == n.id && u.free == n.free && u.busadr == n.busadr && u.busup == n.busup
               && u.netup == n.netup && u.groups == n.groups && u.classes == n.classes
               && (if n.free || (n.state != State.Identify && n.state != Normal) then u == n
                   else if n.timeout == 0 then !u.active && u.state == TimedOut && u.kind == NoKind && u.timeout == -1
                   else u.active == n.active && u.state == n.state && u.kind == n.kind && u.timeout == n.timeout - 1)
  {
  }

  // ----- What restarts a timer -----

  /** An event restarts the timer of exactly one node: the one that a packet names or comes from. */
  lemma ResetsExactly(t: Table, timeout: int, e: Event, u: Table, bridge: seq<byte>, k: nat)
    requires Inv(t, bridge) && Legal(e, bridge) && StepsTo(t, timeout, e, u) && k < |t|
    ensures k < |u|
    ensures Resets(t, e) == Some(k) <==>
            && e.Arrived?
            && var (kind, id) := (e.p.data[0], PacketId(e.p));
               || ((kind == Ascii('D') || kind == Ascii('B')) && !u[k].free && u[k].id == id)
               || (kind == Ascii('I') && Expects(t[k], id) && t[k].netup)
               || (kind == Ascii('A') && IsActiveAt(t[k], e.p.src))
  {
    if e.Arrived? {
      var p := e.p;
      Letters();
      if p.data[0] == DISCOVER || p.data[0] == BRIDGE_ID {
        ReachesSlot(t, timeout, e, u, bridge, k);
      } else if p.data[0] == Ascii('I') {
        var slot := ById(t, PacketId(p));
        assert slot.Some? && k != slot.value ==> Apart(t[k], t[slot.value]);
      } else if p.data[0] == Ascii('A') {
        var slot := ByBusAdr(t, p.src);
        assert slot.Some? && k != slot.value ==> Apart(t[k], t[slot.value]);
      }
    }
  }

  lemma ReachesSlot(t: Table, timeout: int, e: Event, u: Table, bridge: seq<byte>, k: nat)
    requires Inv(t, bridge) && Legal(e, bridge) && StepsTo(t, timeout, e, u) && k < |t|
    requires e.Arrived? && (e.p.data[0] == DISCOVER || e.p.data[0] == BRIDGE_ID)
    ensures k < |u|
    ensures Resets(t, e) == Some(k) <==> !u[k].free && u[k].id == PacketId(e.p)
  {
    StepKeepsInv(t, timeout, e, bridge);
    var id := PacketId(e.p);
    if e.p.data[0] == DISCOVER {
      DiscoverReaches(t, timeout, e.p, bridge);
    } else {
      BridgeReaches(t, timeout, e.p, bridge);
    }
    OneSlotWithId(u, id, k, bridge);
  }

  lemma OneSlotWithId(u: Table, id: seq<byte>, k: nat, bridge: seq<byte>)
    requires Inv(u, bridge) && k < |u|
    ensures ById(u, id) == Some(k) <==> !u[k].free && u[k].id == id
  {
    var slot := ById(u, id);
    assert slot.Some? && k != slot.value ==> Apart(u[k], u[slot.value]);
  }

  lemma DiscoverReaches(t: Table, timeout: int, p: InPacket, bridge: seq<byte>)
    requires Inv(t, bridge) && WellFormed(p) && p.data[0] == DISCOVER
    ensures var u := HandleDiscover(t, timeout, p).t;
            |u| == |t| && Resets(t, Arrived(p)) == ById(u, PacketId(p))
  {
    var id := PacketId(p);
    RegistersNode(t, id, Ordinary, 0, bridge);
    if HasRoomFor(t, id) {
      RegisterFacts(t, id, Ordinary, 0, bridge);
      var i := Register(t, id, Ordinary, 0).value.1;
      FoundAgain(t, HandleDiscover(t, timeout, p).t, i, id);
    } else {
      assert ById(t, id).None?;
    }
  }

  lemma BridgeReaches(t: Table, timeout: int, p: InPacket, bridge: seq<byte>)
    requires Inv(t, bridge) && WellFormed(p) && p.data[0] == BRIDGE_ID && p.src == BRIDGE && PacketId(p) == bridge
    requires HandleBridge(t, timeout, p).Handled?
    ensures var u := HandleBridge(t, timeout, p).t;
            |u| == |t| && Resets(t, Arrived(p)) == ById(u, PacketId(p))
  {
    RegistersNode(t, bridge, Kind.Bridge, BRIDGE, bridge);
    BridgeCrashesExactly(t, timeout, p, bridge);
    BridgeSlot(t, p, bridge);
    RegisterFacts(t, bridge, Kind.Bridge, BRIDGE, bridge);
    var i := Register(t, bridge, Kind.Bridge, BRIDGE).value.1;
    FoundAgain(t, HandleBridge(t, timeout, p).t, i, bridge);
  }
}
