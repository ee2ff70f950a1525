/** The service leases of src/directory-server.c. */
module Directory {
  import opened Bytes

  const MAX_PORT := 65635

  type gint = n: int | -0x8000_0000 <= n < 0x8000_0000

  /** struct service. */
  datatype Service = Service(json: string, ttl: nat)

  type Table = map<string, Service>

  /** The fields dirserver_updateServiceCmd reads, None (or port 0) where the JSON lacks them, and the JSON text. */
  datatype Update = Update(serviceType: Option<string>, url: Option<string>, id: Option<string>,
                           name: Option<string>, port: int, json: string)

  datatype Event =
    | Refresh(update: Update)
    | Delete(id: Option<string>, serviceType: Option<string>)
    | Tick

  predicate IsValid(u: Update) {
    u.serviceType.Some? && u.url.Some? && u.id.Some? && u.name.Some? && 1 <= u.port <= MAX_PORT
  }

  /** Assignment of config.dirttl, a gint, to a uint32_t. */
  function InitialTtl(dirttl: gint): nat {
    dirttl % 0x1_0000_0000
  }

  // ----- One event -----

  function Refreshed(table: Table, u: Update, dirttl: gint): Table {
    if IsValid(u) then table[u.id.value + u.serviceType.value := Service(u.json, InitialTtl(dirttl))] else table
  }

  function Deleted(table: Table, id: Option<string>, serviceType: Option<string>): Table {
    if id.Some? && serviceType.Some? then table - {id.value + serviceType.value} else table
  }

  function Decremented(s: Service): Service {
    if s.ttl > 0 then s.(ttl := s.ttl - 1) else s
  }

  /** The result of a tick in one pass over the table. */
  function Swept(table: Table): Table {
    map key | key in table && Decremented(table[key]).ttl > 0 :: Decremented(table[key])
  }

  function Apply(table: Table, e: Event, dirttl: gint): Table {
    match e
    case Refresh(u) => Refreshed(table, u, dirttl)
    case Delete(id, serviceType) => Deleted(table, id, serviceType)
    case Tick => Swept(table)
  }

  function After(events: seq<Event>, dirttl: gint): Table {
    if events == [] then map[]
    else Apply(After(events[..|events| - 1], dirttl), events[|events| - 1], dirttl)
  }

  // ----- The table read off the history -----

  /** The lease configured: a negative number of ticks is a very large one. */
  function Lease(dirttl: gint): nat {
    if dirttl >= 0 then dirttl else 0x1_0000_0000 + dirttl
  }

  /** How many ticks an entry survives: with a lease of zero it still waits for the next sweep. */
  function Life(dirttl: gint): nat {
    if dirttl == 0 then 1 else Lease(dirttl)
  }

  /** An update with all four strings and a port of 1..65635 refreshes the entry named by its id and its type. */
  predicate Refreshes(e: Event, key: string) {
    && e.Refresh? && e.update.url.Some? && e.update.name.Some? && 1 <= e.update.port <= 65635
    && e.update.id.Some? && e.update.serviceType.Some? && e.update.id.value + e.update.serviceType.value == key
  }

  predicate Deletes(e: Event, key: string) {
    e.Delete? && e.id.Some? && e.serviceType.Some? && e.id.value + e.serviceType.value == key
  }

  /** The last event that refreshes or deletes the key. */
  function LastTouch(events: seq<Event>, key: string): (r: Option<nat>)
    ensures r.Some? ==>
              && r.value < |events|
              && (Refreshes(events[r.value], key) || Deletes(events[r.value], key))
              && forall j | r.value < j < |events| :: !Refreshes(events[j], key) && !Deletes(events[j], key)
    ensures r.None? ==> forall j | 0 <= j < |events| :: !Refreshes(events[j], key) && !Deletes(events[j], key)
  {
    if events == [] then None
    else
      var e := events[|events| - 1];
      if Refreshes(e, key) || Deletes(e, key) then Some(|events| - 1)
      else LastTouch(events[..|events| - 1], key)
  }

  /** Ticks among events[from..]. */
  function TicksSince(events: seq<Event>, from: nat): nat
    decreases |events|
  {
    if |events| <= from then 0
    else TicksSince(events[..|events| - 1], from) + (if events[|events| - 1].Tick? then 1 else 0)
  }

  /** The entry the history promises: the last refresh with no later delete, unless its life has run out. */
  function Promised(events: seq<Event>, key: string, dirttl: gint): Option<Service> {
    var u := LastTouch(events, key);
    if u.None? || Deletes(events[u.value], key) then None
    else
      var ticks := TicksSince(events, u.value + 1);
      if ticks >= Life(dirttl) then None
      else Some(Service(events[u.value].update.json, if dirttl == 0 then 0 else Lease(dirttl) - ticks))
  }

  function Lookup(table: Table, key: string): Option<Service> {
    if key in table then Some(table[key]) else None
  }

  /** What one event does to one entry. */
  lemma EntryStep(table: Table, e: Event, key: string, dirttl: gint)
    ensures var before, after := Lookup(table, key), Lookup(Apply(table, e, dirttl), key);
            && (Refreshes(e, key) ==> after == Some(Service(e.update.json, Lease(dirttl))))
            && (Deletes(e, key) ==> after == None)
            && (e.Tick? ==> after == if before.Some? && before.value.ttl > 1
                                     then Some(before.value.(ttl := before.value.ttl - 1)) else None)
            && (!Refreshes(e, key) && !Deletes(e, key) && !e.Tick? ==> after == before)
  {
  }

  /** The lease table refines the event history, for every key and every configured lease time. */
  lemma {:induction false} LeaseRefinesHistory(events: seq<Event>, key: string, dirttl: gint)
    ensures Lookup(After(events, dirttl), key) == Promised(events, key, dirttl)
    decreases |events|
  {
    if events != [] {
      var front, e := events[..|events| - 1], events[|events| - 1];
      LeaseRefinesHistory(front, key, dirttl);
      EntryStep(After(front, dirttl), e, key, dirttl);
      if Refreshes(e, key) || Deletes(e, key) {
        assert LastTouch(events, key) == Some(|events| - 1);
        assert TicksSince(events, |events|) == 0;
      } else {
        assert LastTouch(events, key) == LastTouch(front, key);
      }
    }
  }

  /** Event u refreshes the key, nothing deletes it afterwards, and too few ticks follow to expire it. */
  predicate KeepsAlive(events: seq<Event>, u: nat, key: string, dirttl: gint)
    requires u < |events|
  {
    && Refreshes(events[u], key)
    && (forall j | u < j < |events| :: !Deletes(events[j], key))
    && var ticks := TicksSince(events, u + 1);
       if dirttl > 0 then ticks < dirttl else if dirttl == 0 then ticks == 0 else ticks < 0x1_0000_0000 + dirttl
  }

  lemma {:induction false} TicksMonotone(events: seq<Event>, from: nat, later: nat)
    requires from <= later
    ensures TicksSince(events, later) <= TicksSince(events, from)
    decreases |events|
  {
    if |events| > later {
      TicksMonotone(events[..|events| - 1], from, later);
    }
  }

  /**
    * A key is listed iff some refresh has no later delete and fewer ticks since than the lease, or none for a lease of
    * zero.
    */
  lemma ListedExactly(events: seq<Event>, key: string, dirttl: gint)
    ensures key in After(events, dirttl) <==>
            exists u | 0 <= u < |events| :: KeepsAlive(events, u, key, dirttl)
  {
    LeaseRefinesHistory(events, key, dirttl);
    var last := LastTouch(events, key);
    if key in After(events, dirttl) {
      assert KeepsAlive(events, last.value, key, dirttl);
    }
    if u :| 0 <= u < |events| && KeepsAlive(events, u, key, dirttl) {
      assert u <= last.value;
      assert Refreshes(events[last.value], key) by {
        if last.value > u {
          assert !Deletes(events[last.value], key);
        }
      }
      TicksMonotone(events, u + 1, last.value + 1);
    }
  }

  /** What is listed is the JSON of the last refresh, and what is left of its lease. */
  lemma EntryOfLastRefresh(events: seq<Event>, key: string, dirttl: gint, u: nat)
    requires key in After(events, dirttl) && u < |events| && Refreshes(events[u], key)
    requires forall j | u < j < |events| :: !Refreshes(events[j], key)
    ensures var s, ticks := After(events, dirttl)[key], TicksSince(events, u + 1);
            && s.json == events[u].update.json
            && (dirttl > 0 ==> s.ttl == dirttl - ticks)
            && (dirttl == 0 ==> s.ttl == 0)
            && (dirttl < 0 ==> s.ttl == 0x1_0000_0000 + dirttl - ticks)
  {
    LeaseRefinesHistory(events, key, dirttl);
    assert LastTouch(events, key) == Some(u);
  }

  // ----- Keys -----

  predicate Overlap(id1: string, type1: string, id2: string, type2: string, middle: string) {
    middle != [] && id1 == id2 + middle && type2 == middle + type1
  }

  /** Characters can move from the end of one id to the front of the other type. */
  ghost predicate Shifted(id1: string, type1: string, id2: string, type2: string) {
    (exists m :: Overlap(id1, type1, id2, type2, m)) || (exists m :: Overlap(id2, type2, id1, type1, m))
  }

  /**
    * The key is the id followed by the type, so of two different services refreshed one after the other the second
    * takes the entry of the first exactly when one is a shift of the other, and deleting it deletes the first.
    */
  lemma KeysCollideExactly(table: Table, first: Update, second: Update, dirttl: gint)
    requires IsValid(first) && IsValid(second) && (first.id, first.serviceType) != (second.id, second.serviceType)
    ensures var key := first.id.value + first.serviceType.value;
            var shifted := Shifted(first.id.value, first.serviceType.value, second.id.value, second.serviceType.value);
            var before := Apply(table, Refresh(first), dirttl);
            && Lookup(before, key) == Some(Service(first.json, Lease(dirttl)))
            && Lookup(Apply(before, Refresh(second), dirttl), key) ==
               Some(Service(if shifted then second.json else first.json, Lease(dirttl)))
            && (Lookup(Apply(before, Delete(second.id, second.serviceType), dirttl), key).None? <==> shifted)
  {
    SplitsAgree(first.id.value, first.serviceType.value, second.id.value, second.serviceType.value);
  }

  /** Service c with id ab and service bc with id a share the key abc. */
  lemma ServicesCollide(table: Table, first: Update, second: Update, dirttl: gint)
    requires IsValid(first) && first.id == Some("ab") && first.serviceType == Some("c")
    requires IsValid(second) && second.id == Some("a") && second.serviceType == Some("bc")
    ensures var both := Apply(Apply(table, Refresh(first), dirttl), Refresh(second), dirttl);
            Lookup(both, "abc") == Some(Service(second.json, Lease(dirttl))) && both.Keys <= table.Keys + {"abc"}
  {
    assert "ab" + "c" == "abc" && "a" + "bc" == "abc";
  }

  lemma SplitsAgree(id1: string, type1: string, id2: string, type2: string)
    ensures id1 + type1 == id2 + type2 && (id1, type1) != (id2, type2) <==> Shifted(id1, type1, id2, type2)
  {
    if id1 + type1 == id2 + type2 && (id1, type1) != (id2, type2) {
      SameSplit(id1, type1, id2, type2);
      if |id1| > |id2| {
        OverlapWitness(id1, type1, id2, type2);
      } else {
        OverlapWitness(id2, type2, id1, type1);
      }
    }
    if m :| Overlap(id1, type1, id2, type2, m) {
      assert id2 + m + type1 == id2 + (m + type1);
    }
    if m :| Overlap(id2, type2, id1, type1, m) {
      assert id1 + m + type2 == id1 + (m + type2);
    }
  }

  lemma SameSplit(id1: string, type1: string, id2: string, type2: string)
    requires id1 + type1 == id2 + type2
    ensures |id1| == |id2| ==> id1 == id2 && type1 == type2
  {
    var key := id1 + type1;
    assert id1 == key[..|id1|] && type1 == key[|id1|..];
    assert id2 == key[..|id2|] && type2 == key[|id2|..];
  }

  lemma OverlapWitness(id1: string, type1: string, id2: string, type2: string)
    requires id1 + type1 == id2 + type2 && |id1| > |id2|
    ensures exists m :: Overlap(id1, type1, id2, type2, m)
  {
    var key := id1 + type1;
    var m := id1[|id2|..];
    assert id1 == key[..|id1|] && id2 == key[..|id2|] && type2 == key[|id2|..];
    assert id1 == id2 + m;
    assert type2 == m + type1;
    assert Overlap(id1, type1, id2, type2, m);
  }

  // ----- The server -----

  /** The services hash table; `announcements` counts the calls of dirserver_announceUpdate. */
  class DirectoryServer {
    const dirttl: gint
    var services: Table
    var announcements: nat

    constructor (dirttl: gint)
      ensures this.dirttl == dirttl && services == After([], dirttl) && announcements == 0
    {
      this.dirttl := dirttl;
      services := map[];
      announcements := 0;
    }

    /** dirserver_updateServiceCmd: the update is announced iff it changes the listed JSON. */
    method UpdateServiceCmd(u: Update)
      modifies this
      ensures services == Apply(old(services), Refresh(u), dirttl)
      ensures var changed := exists key | key in services ::
                  Lookup(old(services), key).None? || old(services)[key].json != services[key].json;
              announcements == old(announcements) + if changed then 1 else 0
    {
      if u.serviceType.None? || u.url.None? || u.id.None? || u.name.None? || u.port < 1 || u.port > MAX_PORT {
        return;
      }
      var key := u.id.value + u.serviceType.value;
      if key !in services {
        services := services[key := Service(u.json, InitialTtl(dirttl))];
        announcements := announcements + 1;
        assert Lookup(old(services), key).None?;
      } else {
        services := services[key := services[key].(ttl := InitialTtl(dirttl))];
        if services[key].json != u.json {
          services := services[key := services[key].(json := u.json)];
          announcements := announcements + 1;
          assert old(services)[key].json != services[key].json;
        }
      }
    }

    method DeleteService(key: string)
      modifies `services
      ensures services == old(services) - {key}
    {
      if key !in services {
        return;
      }
      services := services - {key};
    }

    method DeleteServiceCmd(id: Option<string>, serviceType: Option<string>)
      modifies `services
      ensures services == Apply(old(services), Delete(id, serviceType), dirttl)
    {
      if id.None? || serviceType.None? {
        return;
      }
      DeleteService(id.value + serviceType.value);
    }

    /** dirserver_tick: a decrement pass and a sweep that starts over after each deletion, in any hash order. */
    method Tick()
      modifies `services
      ensures services == Apply(old(services), Event.Tick, dirttl)
    {
      var iter := services.Keys;
      while iter != {}
        invariant iter <= old(services).Keys && services.Keys == old(services).Keys
        invariant forall key | key in services ::
                    services[key] == if key in iter then old(services)[key] else Decremented(old(services)[key])
        decreases iter
      {
        var id :| id in iter;
        iter := iter - {id};
        if services[id].ttl != 0 {
          services := services[id := services[id].(ttl := services[id].ttl - 1)];
        }
      }
      ghost var decremented := services;

      while true
        invariant services.Keys <= decremented.Keys
        invariant forall key | key in services :: services[key] == decremented[key]
        invariant forall key | key in decremented && decremented[key].ttl != 0 :: key in services
        decreases Expired(services)
      {
        var clean := true;
        iter := services.Keys;
        label Pass:
        while iter != {}
          invariant iter <= services.Keys && clean
          invariant forall key | key in services && key !in iter :: services[key].ttl != 0
          invariant services == old@Pass(services)
          decreases iter
        {
          var id :| id in iter;
          iter := iter - {id};
          if services[id].ttl == 0 {
            assert id in Expired(services);
            DeleteService(id);
            clean := false;
            break;
          }
        }
        if clean {
          break;
        }
      }
      assert services == Swept(old(services));
    }
  }

  /** The entries a sweep still has to delete; each restart leaves one fewer. */
  function Expired(table: Table): set<string> {
    set key | key in table && table[key].ttl == 0
  }
}
