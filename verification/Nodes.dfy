/** The node table of src/nodes.c: 256 slots in place, searched by linear scans. */
module Nodes {
  import opened Bytes

  const MAX_NODE := 256
  const CLASSES := 32
  const GROUPS := 32

  datatype Kind = NoKind | Bridge | Multicast | Ordinary

  datatype State = TimedOut | Discovered | Identify | Normal

  /** The fields of struct node that the registration logic uses; `id` is the C string without its terminator. */
  datatype Node = Node(kind: Kind, id: seq<byte>, free: bool, active: bool, state: State, timeout: int,
                       busadr: int, busup: bool, netup: bool, groups: seq<int>, classes: seq<byte>)

  type Table = seq<Node>

  // ----- Scans -----

  function FreeSlot(t: Table): Option<nat> {
    First(t, (n: Node) => n.free)
  }

  function ById(t: Table, id: seq<byte>): Option<nat> {
    First(t, (n: Node) => !n.free && n.id == id)
  }

  function ByBusAdr(t: Table, adr: int): Option<nat> {
    First(t, (n: Node) => !n.free && n.active && n.busadr == adr)
  }

  /** What nodes_getFreeNode wipes in the slot it hands out. */
  function Wiped(n: Node): Node {
    n.(netup := false, groups := seq(GROUPS, _ => -1), classes := seq(CLASSES, _ => 0))
  }

  // ----- Rank and select -----

  /** Number of allocated slots below n. */
  function Rank(t: Table, n: nat): nat
    requires n <= |t|
  {
    if n == 0 then 0 else Rank(t, n - 1) + (if t[n - 1].free then 0 else 1)
  }

  function Count(t: Table): nat {
    Rank(t, |t|)
  }

  /** The k-th allocated slot, if there is one: allocated, with k allocated slots below it. */
  predicate IsSelect(t: Table, k: int, r: Option<nat>) {
    match r
    case Some(i) => i < |t| && !t[i].free && Rank(t, i) == k
    case None => k < 0 || k >= Count(t)
  }

  lemma {:induction false} RankMonotone(t: Table, m: nat, n: nat)
    requires m <= n <= |t|
    ensures Rank(t, m) <= Rank(t, n) <= Rank(t, m) + (n - m)
    ensures m < n && !t[m].free ==> Rank(t, m) < Rank(t, n)
    decreases n
  {
    if m < n {
      RankMonotone(t, m, n - 1);
    }
  }

  lemma {:induction false} RankSameFlags(t: Table, u: Table, n: nat)
    requires |t| == |u| && n <= |t|
    requires forall i | 0 <= i < n :: t[i].free == u[i].free
    ensures Rank(t, n) == Rank(u, n)
  {
    if n > 0 {
      RankSameFlags(t, u, n - 1);
    }
  }

  /** Slots are only ever taken, never given back: counts grow. */
  lemma {:induction false} RankGrows(t: Table, u: Table, n: nat)
    requires |t| == |u| && n <= |t|
    requires forall i | 0 <= i < n :: !t[i].free ==> !u[i].free
    ensures Rank(t, n) <= Rank(u, n)
  {
    if n > 0 {
      RankGrows(t, u, n - 1);
    }
  }

  /** Enumeration by number is an increasing bijection from 0..count-1 onto the allocated slots. */
  lemma EnumerationIsBijective(t: Table, k1: int, i1: nat, k2: int, i2: nat)
    requires IsSelect(t, k1, Some(i1)) && IsSelect(t, k2, Some(i2))
    ensures 0 <= k1 < Count(t) && 0 <= k2 < Count(t)
    ensures k1 < k2 <==> i1 < i2
    ensures k1 == k2 <==> i1 == i2
  {
    RankMonotone(t, i1, |t|);
    RankMonotone(t, i2, |t|);
    if i1 < i2 {
      RankMonotone(t, i1, i2);
    } else if i2 < i1 {
      RankMonotone(t, i2, i1);
    }
  }

  /** Every number below the count is the number of some allocated slot. */
  lemma {:induction false} EnumerationIsTotal(t: Table, n: nat, k: nat)
    requires n <= |t| && k < Rank(t, n)
    ensures exists i | 0 <= i < n :: IsSelect(t, k, Some(i))
  {
    if k < Rank(t, n - 1) {
      EnumerationIsTotal(t, n - 1, k);
    } else {
      assert IsSelect(t, k, Some(n - 1));
    }
  }

  /** Allocated slots form a prefix of the table. */
  predicate IsPrefix(t: Table) {
    forall i, j | 0 <= i < j < |t| :: !t[j].free ==> !t[i].free
  }

  lemma {:induction false} RankOfPrefix(t: Table, n: nat)
    requires IsPrefix(t) && n <= |t|
    ensures Rank(t, n) <= n && (n > 0 && !t[n - 1].free ==> Rank(t, n) == n)
  {
    if n > 0 {
      RankOfPrefix(t, n - 1);
    }
  }

  /** In a table whose allocated slots form a prefix, number k is slot k. */
  lemma NumberIsSlot(t: Table, k: int, r: Option<nat>)
    requires IsPrefix(t) && IsSelect(t, k, r)
    ensures r == if 0 <= k < Count(t) then Some(k as nat) else None
  {
    if r.Some? {
      RankOfPrefix(t, r.value + 1);
      RankMonotone(t, r.value, |t|);
    }
  }

  // ----- The table -----

  class NodeTable {
    const nodes: array<Node>

    constructor (initial: Node)
      requires initial.free
      ensures Valid() && fresh(nodes) && forall i | 0 <= i < MAX_NODE :: nodes[i] == initial
    {
      nodes := new Node[MAX_NODE](_ => initial);
    }

    ghost predicate Valid() {
      nodes.Length == MAX_NODE
    }

    /** Assignment to fields of one slot. */
    method Put(i: nat, n: Node)
      requires Valid() && i < MAX_NODE
      modifies nodes
      ensures nodes[..] == old(nodes[..])[i := n]
    {
      nodes[i] := n;
    }

    method GetFreeNode() returns (r: Option<nat>)
      requires Valid()
      modifies nodes
      ensures r == FreeSlot(old(nodes[..]))
      ensures nodes[..] == (if r.Some? then old(nodes[..])[r.value := Wiped(old(nodes[r.value]))] else old(nodes[..]))
    {
      for i := 0 to MAX_NODE
        invariant forall j | 0 <= j < i :: !nodes[j].free
        invariant nodes[..] == old(nodes[..])
      {
        if nodes[i].free {
          assert FreeSlot(nodes[..]) == Some(i);
          nodes[i] := Wiped(nodes[i]);
          return Some(i);
        }
      }
      return None;
    }

    method AddNode(i: nat)
      requires Valid() && i < MAX_NODE
      modifies nodes
      ensures nodes[..] == old(nodes[..])[i := old(nodes[i]).(free := false)]
    {
      nodes[i] := nodes[i].(free := false);
    }

    method GetNodeCount() returns (count: nat)
      requires Valid()
      ensures count == Count(nodes[..])
    {
      count := 0;
      for i := 0 to MAX_NODE
        invariant count == Rank(nodes[..], i)
      {
        if !nodes[i].free {
          count := count + 1;
        }
      }
    }

    /** nodes_getNode: the argument is counted down once per allocated slot passed. */
    method GetNode(k: int) returns (r: Option<nat>)
      requires Valid()
      ensures IsSelect(nodes[..], k, r)
    {
      var node := k;
      for i := 0 to MAX_NODE
        invariant node == k - Rank(nodes[..], i)
        invariant k < 0 || node >= 0
      {
        if !nodes[i].free {
          node := node - 1;
          if node + 1 == 0 {
            return Some(i);
          }
        }
      }
      return None;
    }

    method GetNodeById(id: seq<byte>) returns (r: Option<nat>)
      requires Valid()
      ensures r == ById(nodes[..], id)
    {
      for i := 0 to MAX_NODE
        invariant forall j | 0 <= j < i :: nodes[j].free || nodes[j].id != id
      {
        if !nodes[i].free && nodes[i].id == id {
          return Some(i);
        }
      }
      return None;
    }

    method GetNodeByBusAdr(adr: int) returns (r: Option<nat>)
      requires Valid()
      ensures r == ByBusAdr(nodes[..], adr)
    {
      for i := 0 to MAX_NODE
        invariant forall j | 0 <= j < i :: nodes[j].free || !nodes[j].active || nodes[j].busadr != adr
      {
        if !nodes[i].free && nodes[i].active && nodes[i].busadr == adr {
          return Some(i);
        }
      }
      return None;
    }

    method ActivateNode(i: nat)
      requires Valid() && i < MAX_NODE && !nodes[i].free
      modifies nodes
      ensures nodes[..] == old(nodes[..])[i := old(nodes[i]).(active := true)]
    {
      nodes[i] := nodes[i].(active := true);
    }

    method DeactivateNode(i: nat)
      requires Valid() && i < MAX_NODE && !nodes[i].free
      modifies nodes
      ensures nodes[..] == old(nodes[..])[i := old(nodes[i]).(active := false)]
    {
      nodes[i] := nodes[i].(active := false);
    }
  }
}
