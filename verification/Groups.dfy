/** The multicast group table of src/groups.c. */
module Groups {
  import opened Bytes
  import Nodes
  import BusMgt
  import Addresses

  const START_ADDRESS := 0x80
  const MAX_GROUPS := 127

  datatype Group = Group(name: string, hostname: string, cls: nat, busadr: int)

  /** One call of groups_addGroup; `socketOk` says whether multicast_createSocket succeeded. */
  datatype Add = Add(name: string, hostname: string, cls: nat, socketOk: bool)

  function ByName(groups: seq<Group>, name: string): Option<nat> {
    First(groups, (g: Group) => g.name == name)
  }

  function ByBusAddress(groups: seq<Group>, busadr: int): Option<nat> {
    First(groups, (g: Group) => g.busadr == busadr)
  }

  function Added(groups: seq<Group>, a: Add): seq<Group> {
    if ByName(groups, a.name).Some? || |groups| >= MAX_GROUPS || !a.socketOk then groups
    else groups + [Group(a.name, a.hostname, a.cls, START_ADDRESS + |groups|)]
  }

  function AddedAll(adds: seq<Add>): seq<Group> {
    if adds == [] then [] else Added(AddedAll(adds[..|adds| - 1]), adds[|adds| - 1])
  }

  // ----- The table read off the list of calls -----

  /** The calls whose socket came up, the first one for each name only. */
  function FirstAdds(adds: seq<Add>): seq<Add> {
    if adds == [] then []
    else
      var before, a := FirstAdds(adds[..|adds| - 1]), adds[|adds| - 1];
      if a.socketOk && forall b | b in before :: b.name != a.name then before + [a] else before
  }

  /** The table lists the first 127 of them with all they say, and group i has address 0x80 + i. */
  lemma {:induction false} TableIsFirstAdds(adds: seq<Add>)
    ensures var groups, firsts := AddedAll(adds), FirstAdds(adds);
            && |groups| == (if |firsts| <= 127 then |firsts| else 127)
            && forall i | 0 <= i < |groups| ::
                 groups[i] == Group(firsts[i].name, firsts[i].hostname, firsts[i].cls, 0x80 + i)
    decreases |adds|
  {
    if adds != [] {
      var front, a := adds[..|adds| - 1], adds[|adds| - 1];
      TableIsFirstAdds(front);
      var groups, firsts := AddedAll(front), FirstAdds(front);
      var known := ByName(groups, a.name);
      if known.Some? {
        assert firsts[known.value] in firsts && firsts[known.value].name == a.name;
      } else if |groups| == |firsts| {
        forall b | b in firsts
          ensures b.name != a.name
        {
          var i :| 0 <= i < |firsts| && firsts[i] == b;
          assert groups[i].name == b.name;
        }
      }
    }
  }

  lemma {:induction false} NamesAreDistinct(adds: seq<Add>)
    ensures forall i, j | 0 <= i < j < |FirstAdds(adds)| :: FirstAdds(adds)[i].name != FirstAdds(adds)[j].name
    decreases |adds|
  {
    if adds != [] {
      NamesAreDistinct(adds[..|adds| - 1]);
    }
  }

  /** In every reachable table both lookups find group i again, and an address outside the table finds nothing. */
  lemma {:induction false} LookupsAgree(adds: seq<Add>, i: nat)
    requires i < |AddedAll(adds)|
    ensures var groups := AddedAll(adds);
            && ByName(groups, groups[i].name) == Some(i)
            && ByBusAddress(groups, START_ADDRESS + i) == Some(i)
            && ByBusAddress(groups, START_ADDRESS + |groups|) == None
  {
    TableIsFirstAdds(adds);
    NamesAreDistinct(adds);
  }

  /** While fewer than 125 nodes are active, a newly allocated node address is no group's address. */
  lemma {:induction false} NodeAddressIsNoGroup(t: Nodes.Table, adds: seq<Add>)
    requires |Addresses.ActiveSlots(t)| < 125
    ensures ByBusAddress(AddedAll(adds), BusMgt.FreeAdr(t)) == None
  {
    Addresses.AllocatorLimits(t);
    TableIsFirstAdds(adds);
  }

  lemma {:induction false} GroupAddresses(adds: seq<Add>, adr: int)
    ensures |AddedAll(adds)| <= MAX_GROUPS
    ensures ByBusAddress(AddedAll(adds), adr).Some? <==> START_ADDRESS <= adr < START_ADDRESS + |AddedAll(adds)|
  {
    var groups := AddedAll(adds);
    TableIsFirstAdds(adds);
    if START_ADDRESS <= adr < START_ADDRESS + |groups| {
      assert groups[adr - START_ADDRESS].busadr == adr;
    }
  }

  predicate IsHeld(t: Nodes.Table, adr: int) {
    Nodes.ByBusAdr(t, adr).Some?
  }

  /** The allocator's answer lies in a range of the upper half. */
  lemma {:induction false} FreeAdrBetween(t: Nodes.Table, n: nat)
    requires n <= MAX_GROUPS
    ensures START_ADDRESS <= BusMgt.FreeAdr(t) < START_ADDRESS + n <==>
            && (forall a | BusMgt.FIRST_ADR <= a < START_ADDRESS :: IsHeld(t, a))
            && exists a | START_ADDRESS <= a < START_ADDRESS + n :: !IsHeld(t, a)
  {
    var adr := BusMgt.FreeAdr(t);
    var held := if adr == -1 then BusMgt.LAST_ADR + 1 else adr;
    assert forall a | BusMgt.FIRST_ADR <= a < held :: IsHeld(t, a);
    if adr != -1 {
      assert !IsHeld(t, adr);
    }
  }

  /**
    * A newly allocated node address is that of a group exactly if all node addresses below the groups are held and
    * one of the groups' addresses is not.
    */
  lemma {:induction false} NodeAddressIsGroupExactly(t: Nodes.Table, adds: seq<Add>)
    ensures var groups := AddedAll(adds);
            ByBusAddress(groups, BusMgt.FreeAdr(t)).Some? <==>
            && (forall a | BusMgt.FIRST_ADR <= a < START_ADDRESS :: IsHeld(t, a))
            && exists a | START_ADDRESS <= a < START_ADDRESS + |groups| :: !IsHeld(t, a)
  {
    GroupAddresses(adds, BusMgt.FreeAdr(t));
    FreeAdrBetween(t, |AddedAll(adds)|);
  }

  /** groups[] with groupcount; only the first `count` entries are in use. */
  class GroupTable {
    const groups: array<Group>
    var count: nat

    constructor ()
      ensures Valid() && fresh(groups) && groups[..count] == AddedAll([])
    {
      groups := new Group[MAX_GROUPS](_ => Group("", "", 0, 0));
      count := 0;
    }

    ghost predicate Valid()
      reads this
    {
      groups.Length == MAX_GROUPS && count <= MAX_GROUPS
    }

    method AddGroup(a: Add)
      requires Valid()
      modifies this, groups
      ensures Valid() && groups[..count] == Added(old(groups[..count]), a)
    {
      var known := GetGroupByName(a.name);
      if known.Some? {
        return;
      }
      if count < MAX_GROUPS {
        if a.socketOk {
          groups[count] := Group(a.name, a.hostname, a.cls, count + START_ADDRESS);
          count := count + 1;
        }
      }
    }

    method GetGroupByName(name: string) returns (r: Option<nat>)
      requires Valid()
      ensures r == ByName(groups[..count], name)
    {
      for i := 0 to count
        invariant forall j | 0 <= j < i :: groups[j].name != name
      {
        if groups[i].name == name {
          return Some(i);
        }
      }
      return None;
    }

    method GetGroupByBusAddress(busadr: int) returns (r: Option<nat>)
      requires Valid()
      ensures r == ByBusAddress(groups[..count], busadr)
    {
      for i := 0 to count
        invariant forall j | 0 <= j < i :: groups[j].busadr != busadr
      {
        if groups[i].busadr == busadr {
          return Some(i);
        }
      }
      return None;
    }

    /** groups_getBusAddress: the address of a named group, or -1. */
    method GetBusAddress(name: string) returns (busadr: int)
      requires Valid()
      ensures busadr == match ByName(groups[..count], name)
                        case None => -1
                        case Some(i) => groups[i].busadr
    {
      var g := GetGroupByName(name);
      return if g.Some? then groups[g.value].busadr else -1;
    }
  }
}
