/** The life of one node over a run: its keep-alive lease and its handshake. */
module NodeLife {
  import opened Bytes
  import opened Nodes
  import opened BusMgt
  import opened Lifecycle

  // ----- One slot at a time -----

  /** What an event is for one slot: it restarts its timer, is a tick, names it in a discover or in an identify. */
  datatype Mark = Mark(resets: bool, tick: bool, discover: bool, identify: bool)

  predicate IsSound(n: Node) {
    (n.active <==> n.state == State.Identify || n.state == Normal) && (n.free ==> !n.active)
  }

  predicate LifeStep(n: Node, m: Mark, u: Node, timeout: int) {
    && IsSound(n) && IsSound(u)
    && (!n.free ==> !u.free && u.id == n.id)
    && (m.resets ==> !m.tick && u.active && u.timeout == timeout)
    && (m.tick ==> u == Ticked(n))
    && (!m.resets && !m.tick ==> u.active == n.active && u.timeout == n.timeout)
    && (u.state == State.Identify ==> n.state == State.Identify || m.discover)
    && (u.state == Normal && u.kind == Ordinary ==>
          || (n.state == Normal && n.kind == Ordinary)
          || (n.state == State.Identify && n.netup && m.identify))
  }

  /** The successive contents of one slot and the events as they concern it. */
  ghost predicate IsLife(ns: seq<Node>, ms: seq<Mark>, timeout: int) {
    && |ns| == |ms| + 1 && !ns[0].active && ns[0].state == TimedOut
    && forall j | 0 <= j < |ms| :: LifeStep(ns[j], ms[j], ns[j + 1], timeout)
  }

  // ----- Keep-alive -----

  function Ticks(ms: seq<Mark>, from: nat, upto: nat): nat
    requires upto <= |ms|
  {
    if upto <= from then 0 else Ticks(ms, from, upto - 1) + (if ms[upto - 1].tick then 1 else 0)
  }

  function LastReset(ms: seq<Mark>, n: nat): (r: Option<nat>)
    requires n <= |ms|
    ensures r.Some? ==> r.value < n && ms[r.value].resets && forall j | r.value < j < n :: !ms[j].resets
    ensures r.None? ==> forall j | 0 <= j < n :: !ms[j].resets
  {
    if n == 0 then None
    else if ms[n - 1].resets then Some(n - 1)
    else LastReset(ms, n - 1)
  }

  /** The lease runs from the last reset, and the timer shows what is left of it. */
  lemma {:induction false} LeaseFromLastReset(ns: seq<Node>, ms: seq<Mark>, timeout: int, n: nat)
    requires IsLife(ns, ms, timeout) && n < |ns|
    ensures var r := LastReset(ms, n);
            && (ns[n].active <==> r.Some? && (timeout < 0 || Ticks(ms, r.value + 1, n) <= timeout))
            && (ns[n].active ==> ns[n].timeout == timeout - Ticks(ms, r.value + 1, n))
    decreases n
  {
    if n > 0 {
      LeaseFromLastReset(ns, ms, timeout, n - 1);
      assert LifeStep(ns[n - 1], ms[n - 1], ns[n], timeout);
    }
  }

  lemma {:induction false} TicksMonotone(ms: seq<Mark>, a: nat, b: nat, upto: nat)
    requires a <= b && upto <= |ms|
    ensures Ticks(ms, b, upto) <= Ticks(ms, a, upto)
    decreases upto
  {
    if upto > b {
      TicksMonotone(ms, a, b, upto - 1);
    }
  }

  /** Reset r restarted the timer, and at most `timeout` ticks followed before step n. */
  predicate Sustains(ms: seq<Mark>, timeout: int, r: nat, n: nat)
    requires r < n <= |ms|
  {
    ms[r].resets && (timeout < 0 || Ticks(ms, r + 1, n) <= timeout)
  }

  lemma LeaseExactly(ns: seq<Node>, ms: seq<Mark>, timeout: int, n: nat)
    requires IsLife(ns, ms, timeout) && n < |ns|
    ensures ns[n].active <==> exists r | 0 <= r < n :: Sustains(ms, timeout, r, n)
  {
    LeaseFromLastReset(ns, ms, timeout, n);
    var last := LastReset(ms, n);
    if ns[n].active {
      assert Sustains(ms, timeout, last.value, n);
    }
    if r :| 0 <= r < n && Sustains(ms, timeout, r, n) {
      TicksMonotone(ms, r + 1, last.value + 1, n);
    }
  }

  // ----- The handshake -----

  /** Mark d was a discover naming the node, which has been identifying ever since. */
  predicate IdentifyingSince(ns: seq<Node>, ms: seq<Mark>, d: nat, n: nat)
    requires d < n < |ns| && n <= |ms|
  {
    ms[d].discover && forall j | d < j <= n :: ns[j].state == State.Identify && ns[j].id == ns[n].id
  }

  /** Mark i was an identify naming the node, taken while its network was up; it is in normal operation ever since. */
  predicate NormalSince(ns: seq<Node>, ms: seq<Mark>, i: nat, n: nat)
    requires i < n < |ns| && n <= |ms|
  {
    && ms[i].identify && ns[i].state == State.Identify && ns[i].netup && ns[i].id == ns[n].id
    && forall j | i < j <= n :: ns[j].state == Normal && ns[j].kind == Ordinary && ns[j].id == ns[n].id
  }

  lemma {:induction false} IdentifyingNeedsDiscover(ns: seq<Node>, ms: seq<Mark>, timeout: int, n: nat)
    returns (d: nat)
    requires IsLife(ns, ms, timeout) && n < |ns| && ns[n].state == State.Identify
    ensures d < n && IdentifyingSince(ns, ms, d, n)
    decreases n
  {
    assert LifeStep(ns[n - 1], ms[n - 1], ns[n], timeout);
    if ns[n - 1].state == State.Identify {
      d := IdentifyingNeedsDiscover(ns, ms, timeout, n - 1);
    } else {
      d := n - 1;
    }
  }

  lemma {:induction false} NormalNeedsHandshake(ns: seq<Node>, ms: seq<Mark>, timeout: int, n: nat)
    returns (d: nat, i: nat)
    requires IsLife(ns, ms, timeout) && n < |ns| && ns[n].state == Normal && ns[n].kind == Ordinary
    ensures d < i < n && IdentifyingSince(ns, ms, d, i) && NormalSince(ns, ms, i, n)
    decreases n
  {
    assert LifeStep(ns[n - 1], ms[n - 1], ns[n], timeout);
    if ns[n - 1].state == Normal && ns[n - 1].kind == Ordinary {
      d, i := NormalNeedsHandshake(ns, ms, timeout, n - 1);
    } else {
      i := n - 1;
      d := IdentifyingNeedsDiscover(ns, ms, timeout, n - 1);
    }
  }

  // ----- Slots of a run -----

  function MarkOf(t: Table, e: Event, u: Table, k: nat): Mark
    requires k < |u| && (e.Arrived? ==> WellFormed(e.p))
  {
    Mark(Resets(t, e) == Some(k), e.Tick?, IsFrom(e, DISCOVER, u[k].id), IsFrom(e, IDENTIFY, u[k].id))
  }

  /** ns and ms are slot k of a run. */
  ghost predicate IsLifeOf(ns: seq<Node>, ms: seq<Mark>, ts: seq<Table>, es: seq<Event>, k: nat) {
    && |ns| == |ts| && |ms| == |es| && |ts| == |es| + 1
    && (forall j | 0 <= j < |ts| :: k < |ts[j]| && ns[j] == ts[j][k])
    && (forall j | 0 <= j < |es| :: es[j].Arrived? ==> WellFormed(es[j].p))
    && (forall j | 0 <= j < |es| :: ms[j] == MarkOf(ts[j], es[j], ts[j + 1], k))
  }

  predicate StepIsLife(ts: seq<Table>, es: seq<Event>, timeout: int, k: nat, j: nat)
    requires j < |es| < |ts|
  {
    && k < |ts[j]| && k < |ts[j + 1]| && (es[j].Arrived? ==> WellFormed(es[j].p))
    && LifeStep(ts[j][k], MarkOf(ts[j], es[j], ts[j + 1], k), ts[j + 1][k], timeout)
  }

  lemma RunLifeStep(ts: seq<Table>, es: seq<Event>, timeout: int, bridge: seq<byte>, k: nat, j: nat)
    requires IsRun(ts, es, timeout, bridge) && j < |es| && k < MAX_NODE
    ensures StepIsLife(ts, es, timeout, k, j)
  {
    RunStep(ts, es, timeout, bridge, j, k);
    assert Legal(es[j], bridge);
    assert SlotOk(ts[j][k], bridge) && SlotOk(ts[j + 1][k], bridge);
  }

  /** Every slot of every run has a life. */
  lemma SlotOfRun(ts: seq<Table>, es: seq<Event>, timeout: int, bridge: seq<byte>, k: nat)
    returns (ns: seq<Node>, ms: seq<Mark>)
    requires IsRun(ts, es, timeout, bridge) && k < MAX_NODE
    ensures IsLifeOf(ns, ms, ts, es, k) && IsLife(ns, ms, timeout)
  {
    forall j | 0 <= j < |es|
      ensures StepIsLife(ts, es, timeout, k, j)
    {
      RunLifeStep(ts, es, timeout, bridge, k, j);
    }
    assert |ts[0]| == MAX_NODE && !ts[0][k].active && ts[0][k].state == TimedOut;
    ns, ms := LifeFromSteps(ts, es, timeout, k);
  }

  lemma LifeFromSteps(ts: seq<Table>, es: seq<Event>, timeout: int, k: nat)
    returns (ns: seq<Node>, ms: seq<Mark>)
    requires |ts| == |es| + 1 && k < |ts[0]| && !ts[0][k].active && ts[0][k].state == TimedOut
    requires forall j | 0 <= j < |es| :: StepIsLife(ts, es, timeout, k, j)
    ensures IsLifeOf(ns, ms, ts, es, k) && IsLife(ns, ms, timeout)
  {
    forall j | 0 <= j < |ts|
      ensures k < |ts[j]|
    {
      assert j > 0 ==> StepIsLife(ts, es, timeout, k, j - 1);
    }
    forall j | 0 <= j < |es|
      ensures es[j].Arrived? ==> WellFormed(es[j].p)
    {
      assert StepIsLife(ts, es, timeout, k, j);
    }
    ns := seq(|ts|, j requires 0 <= j < |ts| => ts[j][k]);
    ms := seq(|es|, j requires 0 <= j < |es| => MarkOf(ts[j], es[j], ts[j + 1], k));
    forall j | 0 <= j < |ms|
      ensures LifeStep(ns[j], ms[j], ns[j + 1], timeout)
    {
      assert StepIsLife(ts, es, timeout, k, j);
    }
  }

  // ----- The claims about runs -----

  /** Ticks among events from..upto-1. */
  function TicksIn(es: seq<Event>, from: nat, upto: nat): nat
    requires upto <= |es|
  {
    if upto <= from then 0 else TicksIn(es, from, upto - 1) + (if es[upto - 1].Tick? then 1 else 0)
  }

  lemma {:induction false} TicksAgree(ms: seq<Mark>, es: seq<Event>, from: nat, upto: nat)
    requires |ms| == |es| && upto <= |es| && forall j | 0 <= j < |es| :: ms[j].tick == es[j].Tick?
    ensures Ticks(ms, from, upto) == TicksIn(es, from, upto)
    decreases upto
  {
    if upto > from {
      TicksAgree(ms, es, from, upto - 1);
    }
  }

  /** Event r restarted the timer of slot k, and at most `timeout` ticks followed before event n. */
  predicate Renews(ts: seq<Table>, es: seq<Event>, timeout: int, k: nat, r: nat, n: nat)
    requires r < n <= |es| < |ts| && (es[r].Arrived? ==> WellFormed(es[r].p))
  {
    Resets(ts[r], es[r]) == Some(k) && (timeout < 0 || TicksIn(es, r + 1, n) <= timeout)
  }

  /**
    * A node is active iff something restarted its timer at most `timeout` ticks ago: it survives that many silent
    * ticks and is dropped by the next one. With a negative timeout it is never dropped.
    */
  lemma KeepAliveExactly(ts: seq<Table>, es: seq<Event>, timeout: int, bridge: seq<byte>, k: nat, n: nat)
    requires IsRun(ts, es, timeout, bridge) && n < |ts| && k < MAX_NODE
    ensures |ts[n]| == MAX_NODE && forall r | 0 <= r < |es| :: es[r].Arrived? ==> WellFormed(es[r].p)
    ensures ts[n][k].active <==> exists r | 0 <= r < n :: Renews(ts, es, timeout, k, r, n)
  {
    ReachableInv(ts, es, timeout, bridge, n);
    var ns, ms := SlotOfRun(ts, es, timeout, bridge, k);
    LeaseExactly(ns, ms, timeout, n);
    RenewsIsSustains(ns, ms, ts, es, timeout, k, n);
  }

  lemma RenewsIsSustains(ns: seq<Node>, ms: seq<Mark>, ts: seq<Table>, es: seq<Event>, timeout: int, k: nat, n: nat)
    requires IsLifeOf(ns, ms, ts, es, k) && n < |ts|
    ensures (exists r | 0 <= r < n :: Renews(ts, es, timeout, k, r, n)) <==>
            (exists r | 0 <= r < n :: Sustains(ms, timeout, r, n))
  {
    forall j | 0 <= j < |es|
      ensures ms[j].tick == es[j].Tick?
    {
      assert ms[j] == MarkOf(ts[j], es[j], ts[j + 1], k);
    }
    forall r | 0 <= r < n
      ensures Renews(ts, es, timeout, k, r, n) <==> Sustains(ms, timeout, r, n)
    {
      assert ms[r] == MarkOf(ts[r], es[r], ts[r + 1], k);
      TicksAgree(ms, es, r + 1, n);
    }
  }

  /** Slot k holds the node called id in the given state, at every step from..upto. */
  predicate Stays(ts: seq<Table>, k: nat, id: seq<byte>, state: State, from: nat, upto: nat)
    requires upto < |ts|
  {
    forall j | from <= j <= upto :: k < |ts[j]| && ts[j][k].id == id && ts[j][k].state == state
  }

  /**
    * An ordinary node in normal operation got there by a discover naming it, after which it stayed identifying until
    * an identify naming it arrived with the network up; it has stayed in normal operation since.
    */
  lemma HandshakeOrder(ts: seq<Table>, es: seq<Event>, timeout: int, bridge: seq<byte>, k: nat, n: nat)
    returns (d: nat, i: nat)
    requires IsRun(ts, es, timeout, bridge) && n < |ts| && k < |ts[n]| == MAX_NODE
    requires ts[n][k].state == Normal && ts[n][k].kind == Ordinary
    ensures d < i < n && k < |ts[i]|
    ensures IsFrom(es[d], DISCOVER, ts[n][k].id) && Stays(ts, k, ts[n][k].id, State.Identify, d + 1, i)
    ensures IsFrom(es[i], IDENTIFY, ts[n][k].id) && ts[i][k].netup
    ensures Stays(ts, k, ts[n][k].id, Normal, i + 1, n)
  {
    var ns, ms := SlotOfRun(ts, es, timeout, bridge, k);
    d, i := NormalNeedsHandshake(ns, ms, timeout, n);
    assert ms[d] == MarkOf(ts[d], es[d], ts[d + 1], k) && ms[i] == MarkOf(ts[i], es[i], ts[i + 1], k);
    assert ns[d + 1].id == ns[i].id && ns[i + 1].id == ns[n].id;
  }
}
