/** uspace/src/process.c:232-294 and connection.c: runs of packets and timeouts over the connection tables. */
module ConnectionRuns {
  import opened Common
  import opened Timer
  import opened Connection
  import PR = PortRange

  /** A packet from a client, a packet from a server, and a call of timer_expire. */
  datatype Event =
    | FromClient(k: Key, choice: Choice, closes: bool)
    | FromServer(k: Key, isClient: bool, closes: bool)
    | Expire(ticks: nat, batch: seq<Firing>)

  /** connection.c:125 and 134 as they are, or with the comparison that is meant. */
  datatype Comparison = AsWritten | AsMeant

  /** What the environment can do: fresh memory, a local address with port ranges, and the wheel as Timer proves it. */
  ghost predicate Possible(s: State, e: Event) {
    match e
    case FromClient(k, ch, closes) =>
      && (ch.lip.Some? ==> Pool(ch.lip.value, k.proto == PROTO_TCP) in s.free)
      && (ch.memory.Some? ==> ch.memory.value !in s.conns)
    case FromServer(k, isClient, closes) => true
    case Expire(ticks, batch) => s.ticks <= ticks && Handles(batch, s.due, ticks)
  }

  /** The first connection in the bucket with this address and this protocol. */
  function Search(conns: map<nat, Conn>, list: seq<nat>, k: Key, isClient: bool): (r: Option<nat>)
    requires forall id | id in list :: id in conns
    ensures Exact(conns, list, k, isClient, Found(conns, r))
  {
    if list == [] then None
    else if SameAddress(conns[list[0]], k, isClient) && conns[list[0]].proto == k.proto then Some(list[0])
    else Search(conns, list[1..], k, isClient)
  }

  function Lookup(cfg: Config, how: Comparison, s: State, k: Key, isClient: bool): (found: Found)
    requires ListsLive(cfg, s)
    ensures found.cp.Some? ==> found.cp.value in s.conns
  {
    var list := BucketOf(cfg, s, k, isClient);
    match how
    case AsWritten =>
      WalkTakesOver(s.conns, list, k, isClient);
      Walk(s.conns, list, k, isClient)
    case AsMeant => Found(s.conns, Search(s.conns, list, k, isClient))
  }

  ghost function After(cfg: Config, how: Comparison, s: State, e: Event): State
    requires ListsLive(cfg, s) && Possible(s, e)
  {
    match e
    case FromClient(k, ch, closes) =>
      var found := Lookup(cfg, how, s, k, true);
      var s1 := s.(conns := found.conns);
      var cp := if found.cp.Some? then Created(s1, found.cp) else Create(cfg, s1, k, ch);
      if cp.cp.Some? && closes && k.proto == PROTO_TCP then Free(cp.state, cp.cp.value) else cp.state
    case FromServer(k, isClient, closes) =>
      var found := Lookup(cfg, how, s, k, isClient);
      var s1 := s.(conns := found.conns);
      if found.cp.Some? && closes && k.proto == PROTO_TCP then Free(s1, found.cp.value) else s1
    case Expire(ticks, batch) => FreeAll(s, batch).(ticks := ticks)
  }

  // ---------- expiring timers ----------

  lemma {:induction false} FreeAllKeeps(cfg: Config, initial: map<Pool, set<nat>>, s: State, batch: seq<Firing>)
    requires Inv(cfg, initial, s)
    ensures Inv(cfg, initial, FreeAll(s, batch))
    ensures forall id {:trigger id in FreeAll(s, batch).due} ::
              id in FreeAll(s, batch).due <==> id in s.due && forall f | f in batch :: f.timer != id
    ensures FreeAll(s, batch).ticks == s.ticks
    ensures forall id | id in FreeAll(s, batch).due :: FreeAll(s, batch).due[id] == s.due[id]
    decreases |batch|
  {
    hide Inv;
    if batch != [] {
      FreeKeeps(cfg, initial, s, batch[0].timer);
      FreeAllKeeps(cfg, initial, Free(s, batch[0].timer), batch[1..]);
      FreedTimers(cfg, initial, s, batch[0].timer);
      assert batch == [batch[0]] + batch[1..];
    }
  }

  lemma FreedTimers(cfg: Config, initial: map<Pool, set<nat>>, s: State, id: nat)
    requires Inv(cfg, initial, s)
    ensures Free(s, id).due == s.due - {id} && Free(s, id).ticks == s.ticks
  {
  }

  lemma {:induction false} ExpireKeeps(cfg: Config, initial: map<Pool, set<nat>>, s: State, ticks: nat,
                                       batch: seq<Firing>)
    requires Inv(cfg, initial, s) && s.ticks <= ticks && Handles(batch, s.due, ticks)
    ensures var s' := FreeAll(s, batch).(ticks := ticks);
            Inv(cfg, initial, s') && s'.due == Later(s.due, ticks)
  {
    hide Indexed, PortsKept, UniqueClients, TicksOf;
    FreeAllKeeps(cfg, initial, s, batch);
    forall id: nat | true ensures (exists f :: f in batch && f.timer == id) <==> TicksOf(batch, id) != [] {
      InBatch(batch, id);
    }
    var after := FreeAll(s, batch);
    forall id | id in s.due ensures id in after.due <==> s.due[id] > ticks {
      assert TicksOf(batch, id) == if s.due[id] <= ticks then [s.due[id]] else [];
    }
  }

  lemma {:induction false} InBatch(batch: seq<Firing>, id: nat)
    ensures (exists f :: f in batch && f.timer == id) <==> TicksOf(batch, id) != []
  {
    if batch != [] {
      var init, last := batch[..|batch| - 1], batch[|batch| - 1];
      InBatch(init, id);
      assert batch == init + [last];
      if last.timer == id { assert last in batch; }
      if f :| f in init && f.timer == id { assert f in batch; }
    }
  }

  // ---------- one event ----------

  /** No connection with the address of k is in its bucket only if no live connection has the key. */
  lemma {:induction false} NotFoundMeansNone(cfg: Config, initial: map<Pool, set<nat>>, s: State, k: Key)
    requires Inv(cfg, initial, s) && ListsLive(cfg, s)
    ensures Search(s.conns, BucketOf(cfg, s, k, true), k, true) == None ==>
              forall a | a in s.conns :: s.conns[a].ClientKey() != k
  {
    hide PortsKept, TimersKept, UniqueClients;
    forall a | a in s.conns && s.conns[a].ClientKey() == k ensures a in BucketOf(cfg, s, k, true) {
      assert Slotted(s.client, Bucket(cfg, s.conns[a].ClientKey()), a);
    }
  }

  /** The comparison that is meant: every event keeps the invariant, whatever the lookups meet. */
  lemma {:induction false} MeantEventKeeps(cfg: Config, initial: map<Pool, set<nat>>, s: State, e: Event)
    requires Inv(cfg, initial, s) && ListsLive(cfg, s) && Possible(s, e)
    ensures Inv(cfg, initial, After(cfg, AsMeant, s, e))
  {
    hide Inv, Free, Create, Handles, Search, BucketOf;
    match e {
      case FromClient(k, ch, closes) =>
        var cp := Lookup(cfg, AsMeant, s, k, true).cp;
        assert s.(conns := s.conns) == s;
        if cp.None? {
          NotFoundMeansNone(cfg, initial, s, k);
          CreateKeeps(cfg, initial, s, k, ch);
          var created := Create(cfg, s, k, ch);
          if created.cp.Some? { FreeKeeps(cfg, initial, created.state, created.cp.value); }
        } else {
          FreeKeeps(cfg, initial, s, cp.value);
        }
      case FromServer(k, isClient, closes) =>
        var cp := Lookup(cfg, AsMeant, s, k, isClient).cp;
        assert s.(conns := s.conns) == s;
        if cp.Some? { FreeKeeps(cfg, initial, s, cp.value); }
      case Expire(ticks, batch) =>
        ExpireKeeps(cfg, initial, s, ticks, batch);
    }
  }

  /** With the comparison that is meant a live connection is found by its client key and, with full NAT, by its own. */
  lemma {:induction false} FoundByKeys(cfg: Config, initial: map<Pool, set<nat>>, s: State, id: nat)
    requires Inv(cfg, initial, s) && ListsLive(cfg, s) && id in s.conns
    ensures Lookup(cfg, AsMeant, s, s.conns[id].ClientKey(), true) == Found(s.conns, Some(id))
    ensures s.conns[id].fullnat ==>
              Lookup(cfg, AsMeant, s, s.conns[id].SelfKey(), false) == Found(s.conns, Some(id))
  {
    hide PortsKept, TimersKept, Search;
    var c := s.conns[id];
    var list := BucketOf(cfg, s, c.ClientKey(), true);
    assert id in list by { assert Slotted(s.client, Bucket(cfg, c.ClientKey()), id); }
    assert Exact(s.conns, list, c.ClientKey(), true, Found(s.conns, Search(s.conns, list, c.ClientKey(), true)));
    if c.fullnat { FoundBySelf(cfg, initial, s, id); }
  }

  lemma {:induction false} FoundBySelf(cfg: Config, initial: map<Pool, set<nat>>, s: State, id: nat)
    requires Inv(cfg, initial, s) && ListsLive(cfg, s) && id in s.conns && s.conns[id].fullnat
    ensures Lookup(cfg, AsMeant, s, s.conns[id].SelfKey(), false) == Found(s.conns, Some(id))
  {
    hide PortsKept, TimersKept, UniqueClients, Search;
    var c := s.conns[id];
    var list := BucketOf(cfg, s, c.SelfKey(), false);
    assert id in list by { assert Slotted(s.self, Bucket(cfg, c.SelfKey()), id); }
    var r := Search(s.conns, list, c.SelfKey(), false);
    assert Exact(s.conns, list, c.SelfKey(), false, Found(s.conns, r));
    var other := r.value;
    assert s.conns[other].fullnat by { assert Slotted(s.self, Bucket(cfg, c.SelfKey()), other); }
    if other != id { SelfKeysUnique(cfg, initial, s, id, other); }
  }

  /**
   * What a packet of a client comes to with the comparison that is meant: the connection that has its key, or a new
   * one with its key as far as connection_create can make one, or none; a close of TCP ends it.
   */
  lemma {:induction false} PacketGets(cfg: Config, initial: map<Pool, set<nat>>, s: State, k: Key, ch: Choice,
                                      closes: bool)
    requires Inv(cfg, initial, s) && ListsLive(cfg, s) && Possible(s, FromClient(k, ch, closes))
    ensures var s' := After(cfg, AsMeant, s, FromClient(k, ch, closes));
            && (forall a | a in s.conns && s.conns[a].ClientKey() == k ::
                  if closes && k.proto == 6 then s'.conns == s.conns - {a} else s' == s)
            && ((forall a | a in s.conns :: s.conns[a].ClientKey() != k) ==>
                  if !Creates(s, k, ch) then s' == s
                  else if closes && k.proto == 6 then s'.conns == s.conns
                  else && ch.memory.value in s'.conns && s'.conns[ch.memory.value].ClientKey() == k
                       && s'.conns - {ch.memory.value} == s.conns)
  {
    hide Inv, Free, Create, Search, Handles, Creates;
    var cp := Lookup(cfg, AsMeant, s, k, true).cp;
    assert s.(conns := s.conns) == s;
    forall a | a in s.conns && s.conns[a].ClientKey() == k ensures cp == Some(a) {
      FoundByKeys(cfg, initial, s, a);
    }
    if cp.Some? {
      FreeGives(cfg, initial, s, cp.value);
      LookupHasKey(cfg, s, k);
    } else {
      CreateIff(cfg, initial, s, s.conns, k, ch);
      if Creates(s, k, ch) {
        CreateKeeps(cfg, initial, s, k, ch);
        var created := Create(cfg, s, k, ch);
        FreeGives(cfg, initial, created.state, ch.memory.value);
        var c: Conn :| c.ClientKey() == k && created.state.conns == s.conns[ch.memory.value := c];
        assert s.conns[ch.memory.value := c] - {ch.memory.value} == s.conns;
      }
    }
  }

  lemma LookupHasKey(cfg: Config, s: State, k: Key)
    requires ListsLive(cfg, s) && Lookup(cfg, AsMeant, s, k, true).cp.Some?
    ensures var id := Lookup(cfg, AsMeant, s, k, true).cp.value; id in s.conns && s.conns[id].ClientKey() == k
  {
    hide Search;
    var list := BucketOf(cfg, s, k, true);
    assert Exact(s.conns, list, k, true, Found(s.conns, Search(s.conns, list, k, true)));
  }

  /** The guards of connection_create that lead to a new connection. */
  predicate Creates(s: State, k: Key, ch: Choice)
    requires ch.lip.Some? ==> Pool(ch.lip.value, k.proto == PROTO_TCP) in s.free
  {
    && ch.memory.Some? && ch.server && ch.route
    && (ch.fullnat ==> ch.lip.Some? && s.free[Pool(ch.lip.value, k.proto == PROTO_TCP)] != [])
  }

  /** When a lookup as it is written does no harm to tables, timers and ports, seen before the packet is handled. */
  predicate DoesNoHarm(cfg: Config, s: State, e: Event)
    requires ListsLive(cfg, s)
    requires e.FromClient? && e.choice.lip.Some? ==> Pool(e.choice.lip.value, e.k.proto == PROTO_TCP) in s.free
  {
    match e
    case FromClient(k, ch, closes) =>
      if k.proto == 0 && Creates(s, k, ch) then FirstAt(s.conns, BucketOf(cfg, s, k, true), k, true) == None
      else LookupDoesNoHarm(cfg, s, k, true, closes)
    case FromServer(k, isClient, closes) => LookupDoesNoHarm(cfg, s, k, isClient, closes)
    case Expire(ticks, batch) => true
  }

  /** A connection that is closed at once only has to stay in its pool of ports. */
  predicate LookupDoesNoHarm(cfg: Config, s: State, k: Key, isClient: bool, closes: bool)
    requires ListsLive(cfg, s)
  {
    var list := BucketOf(cfg, s, k, isClient);
    var first := FirstAt(s.conns, list, k, isClient);
    if first.Some? && closes && k.proto == PROTO_TCP then
      s.conns[first.value].fullnat ==> SamePool(s.conns[first.value], k.proto)
    else Harmless(cfg, s.conns, Overwritten(s.conns, list, k, isClient), k.proto)
  }

  lemma {:induction false} LookupIff(cfg: Config, initial: map<Pool, set<nat>>, s: State, k: Key, isClient: bool,
                                     closes: bool)
    requires Inv(cfg, initial, s) && ListsLive(cfg, s)
    ensures var found := Lookup(cfg, AsWritten, s, k, isClient);
            var s1 := s.(conns := found.conns);
            var s' := if found.cp.Some? && closes && k.proto == PROTO_TCP then Free(s1, found.cp.value) else s1;
            Inv(cfg, initial, s') <==> LookupDoesNoHarm(cfg, s, k, isClient, closes)
  {
    hide Inv, Harmless, Free, SamePool, Walk;
    var list := BucketOf(cfg, s, k, isClient);
    WalkTakesOver(s.conns, list, k, isClient);
    var ids := Overwritten(s.conns, list, k, isClient);
    TakeOverKeepsIffHarmless(cfg, initial, s, ids, k.proto);
    var first := FirstAt(s.conns, list, k, isClient);
    if first.Some? { FreeTakenOver(cfg, initial, s, first.value, k.proto); }
  }

  /** A lookup that finds the connection with its key, or none with its address, does no harm. */
  lemma {:induction false} CleanDoesNoHarm(cfg: Config, initial: map<Pool, set<nat>>, s: State, k: Key, isClient: bool,
                                           closes: bool)
    requires Inv(cfg, initial, s) && ListsLive(cfg, s) && Clean(s.conns, BucketOf(cfg, s, k, isClient), k, isClient)
    ensures LookupDoesNoHarm(cfg, s, k, isClient, closes)
  {
    hide Indexed, PortsKept, TimersKept, Bucket;
    var list := BucketOf(cfg, s, k, isClient);
    var ids := Overwritten(s.conns, list, k, isClient);
    forall id | id in ids ensures s.conns[id].(proto := k.proto) == s.conns[id] && OnlyOne(s.conns, ids, id, k.proto) {}
  }

  /** A lookup is clean if no live connection has the same address, another protocol and the same bucket. */
  lemma {:induction false} SeparatedIsClean(cfg: Config, initial: map<Pool, set<nat>>, s: State, k: Key, isClient: bool)
    requires Inv(cfg, initial, s) && ListsLive(cfg, s) && k.proto != 0
    requires forall id | id in s.conns && SameAddress(s.conns[id], k, isClient) && s.conns[id].proto != k.proto ::
               Bucket(cfg, if isClient then s.conns[id].ClientKey() else s.conns[id].SelfKey()) != Bucket(cfg, k)
    ensures Clean(s.conns, BucketOf(cfg, s, k, isClient), k, isClient)
  {
    hide PortsKept, TimersKept, UniqueClients;
    var list := BucketOf(cfg, s, k, isClient);
    var first := FirstAt(s.conns, list, k, isClient);
    if first.Some? {
      assert Slotted(if isClient then s.client else s.self, Bucket(cfg, k), first.value);
    }
  }

  /** What connection_create does to any state whose port ranges are sound. */
  lemma CreateIff(cfg: Config, initial: map<Pool, set<nat>>, s: State, conns: map<nat, Conn>, k: Key, ch: Choice)
    requires Inv(cfg, initial, s) && (ch.lip.Some? ==> Pool(ch.lip.value, k.proto == PROTO_TCP) in s.free)
    ensures var created := Create(cfg, s.(conns := conns), k, ch);
            if Creates(s, k, ch) then
              && ch.memory.Some? && created.cp == ch.memory
              && exists c: Conn :: c.ClientKey() == k && created.state.conns == conns[ch.memory.value := c]
            else created == Created(s.(conns := conns), None)
  {
    hide Indexed, TimersKept, UniqueClients, PortsKept, Enter;
    if ch.lip.Some? && s.free[Pool(ch.lip.value, k.proto == PROTO_TCP)] != [] {
      NoZero(initial, s, Pool(ch.lip.value, k.proto == PROTO_TCP));
    }
    var created := Create(cfg, s.(conns := conns), k, ch);
    if Creates(s, k, ch) {
      var c := if !ch.fullnat then Conn(k.ip, k.port, 0, 0, k.proto, false)
               else Conn(k.ip, k.port, ch.lip.value,
                         s.free[Pool(ch.lip.value, k.proto == PROTO_TCP)][0], k.proto, true);
      EnteredAll(cfg, ch.memory.value, c);
      assert c.ClientKey() == k && created.state.conns == conns[ch.memory.value := c];
    } else if ch.lip.Some? {
      var pool := Pool(ch.lip.value, k.proto == PROTO_TCP);
      assert s.free[pool := s.free[pool]] == s.free;
    }
  }

  lemma EnteredAll(cfg: Config, id: nat, c: Conn)
    ensures forall s: State {:trigger Enter(cfg, s, id, c)} ::
              cfg.size > 0 && cfg.total > 0 && |s.client| == |s.self| == cfg.size ==>
              Enter(cfg, s, id, c).conns == s.conns[id := c]
  {
  }

  /** Protocol 0: a new connection beside one that was taken over has the same client key. */
  lemma {:induction false} TwiceTheKey(cfg: Config, initial: map<Pool, set<nat>>, s: State, k: Key, ch: Choice, a: nat)
    requires Inv(cfg, initial, s) && ListsLive(cfg, s) && Possible(s, FromClient(k, ch, false))
    requires k.proto == 0 && Creates(s, k, ch)
    requires FirstAt(s.conns, BucketOf(cfg, s, k, true), k, true) == Some(a)
    ensures !Inv(cfg, initial, After(cfg, AsWritten, s, FromClient(k, ch, false)))
  {
    hide Inv, Create, Walk;
    var list := BucketOf(cfg, s, k, true);
    WalkTakesOver(s.conns, list, k, true);
    var conns := Lookup(cfg, AsWritten, s, k, true).conns;
    assert a in conns && conns[a].ClientKey() == k;
    CreateIff(cfg, initial, s, conns, k, ch);
    var s' := Create(cfg, s.(conns := conns), k, ch).state;
    var c: Conn :| c.ClientKey() == k && s'.conns == conns[ch.memory.value := c];
    SameKeys(cfg, initial, s', a, ch.memory.value);
  }

  lemma SameKeys(cfg: Config, initial: map<Pool, set<nat>>, s: State, a: nat, b: nat)
    requires a in s.conns && b in s.conns && a != b && s.conns[a].ClientKey() == s.conns[b].ClientKey()
    ensures !Inv(cfg, initial, s)
  {
    assert !UniqueClients(s.conns);
  }

  /** For every state and every event: the invariant is kept exactly if the condition holds. */
  lemma {:induction false} EventKeepsIff(cfg: Config, initial: map<Pool, set<nat>>, s: State, e: Event)
    requires Inv(cfg, initial, s) && ListsLive(cfg, s) && Possible(s, e)
    ensures Inv(cfg, initial, After(cfg, AsWritten, s, e)) <==> DoesNoHarm(cfg, s, e)
  {
    match e {
      case FromClient(k, ch, closes) => ClientIff(cfg, initial, s, k, ch, closes);
      case FromServer(k, isClient, closes) => LookupIff(cfg, initial, s, k, isClient, closes);
      case Expire(ticks, batch) => ExpireKeeps(cfg, initial, s, ticks, batch);
    }
  }

  lemma {:induction false} ClientIff(cfg: Config, initial: map<Pool, set<nat>>, s: State, k: Key, ch: Choice,
                                     closes: bool)
    requires Inv(cfg, initial, s) && ListsLive(cfg, s) && Possible(s, FromClient(k, ch, closes))
    ensures Inv(cfg, initial, After(cfg, AsWritten, s, FromClient(k, ch, closes))) <==>
            DoesNoHarm(cfg, s, FromClient(k, ch, closes))
  {
    hide Inv, Create, Creates, LookupDoesNoHarm, Harmless, Free, Walk, Search;
    var list := BucketOf(cfg, s, k, true);
    WalkTakesOver(s.conns, list, k, true);
    LookupIff(cfg, initial, s, k, true, closes);
    var first := FirstAt(s.conns, list, k, true);
    var found := Lookup(cfg, AsWritten, s, k, true);
    CreateIff(cfg, initial, s, found.conns, k, ch);
    if found.cp.None? && first.None? {
      assert found.conns == s.conns && s.(conns := s.conns) == s;
      NoneHarmless(cfg, s, k, closes);
      NotFoundMeansNone(cfg, initial, s, k);
      CreateKeeps(cfg, initial, s, k, ch);
      if Creates(s, k, ch) { FreeKeeps(cfg, initial, Create(cfg, s, k, ch).state, ch.memory.value); }
    } else if found.cp.None? && Creates(s, k, ch) {
      TwiceTheKey(cfg, initial, s, k, ch, first.value);
    }
  }

  lemma NoneHarmless(cfg: Config, s: State, k: Key, closes: bool)
    requires ListsLive(cfg, s) && FirstAt(s.conns, BucketOf(cfg, s, k, true), k, true) == None
    ensures LookupDoesNoHarm(cfg, s, k, true, closes)
  {
    assert Overwritten(s.conns, BucketOf(cfg, s, k, true), k, true) == {};
  }

  // ---------- runs ----------

  ghost predicate IsEmpty(cfg: Config, initial: map<Pool, set<nat>>, s: State) {
    && cfg.size > 0 && cfg.total > 0 && |s.client| == |s.self| == cfg.size
    && s.conns == map[] && s.due == map[] && s.free.Keys == initial.Keys
    && (forall i | 0 <= i < cfg.size :: s.client[i] == [] && s.self[i] == [])
    && forall pool | pool in s.free :: PR.Conserved(initial[pool], PR.Ports(s.free[pool], {}))
  }

  lemma {:induction false} EmptyInv(cfg: Config, initial: map<Pool, set<nat>>, s: State)
    requires IsEmpty(cfg, initial, s)
    ensures Inv(cfg, initial, s)
  {
    forall pool | pool in s.free ensures Held(s.conns, pool) == {} {}
  }

  /** Every event of the run is possible where it happens. */
  ghost predicate AllPossible(cfg: Config, how: Comparison, s: State, run: seq<Event>)
    decreases |run|
  {
    run == [] ||
    (ListsLive(cfg, s) ==> Possible(s, run[0]) && AllPossible(cfg, how, After(cfg, how, s, run[0]), run[1..]))
  }

  /** Tables, timers and ports agree in every state of the run. */
  ghost predicate AlwaysAgree(cfg: Config, initial: map<Pool, set<nat>>, how: Comparison, s: State, run: seq<Event>)
    requires AllPossible(cfg, how, s, run)
    decreases |run|
  {
    && Inv(cfg, initial, s)
    && (run == [] ||
        (ListsLive(cfg, s) && AlwaysAgree(cfg, initial, how, After(cfg, how, s, run[0]), run[1..])))
  }

  ghost predicate NeverHarms(cfg: Config, s: State, run: seq<Event>)
    requires AllPossible(cfg, AsWritten, s, run)
    decreases |run|
  {
    run == [] ||
    (ListsLive(cfg, s) && DoesNoHarm(cfg, s, run[0]) && NeverHarms(cfg, After(cfg, AsWritten, s, run[0]), run[1..]))
  }

  lemma {:induction false} RunIff(cfg: Config, initial: map<Pool, set<nat>>, s: State, run: seq<Event>)
    requires Inv(cfg, initial, s) && AllPossible(cfg, AsWritten, s, run)
    ensures AlwaysAgree(cfg, initial, AsWritten, s, run) <==> NeverHarms(cfg, s, run)
    decreases |run|
  {
    hide Inv, DoesNoHarm, After, ListsLive;
    if run != [] {
      InvListsLive(cfg, initial, s);
      EventKeepsIff(cfg, initial, s, run[0]);
      if DoesNoHarm(cfg, s, run[0]) { RunIff(cfg, initial, After(cfg, AsWritten, s, run[0]), run[1..]); }
    }
  }

  lemma {:induction false} MeantRunKeeps(cfg: Config, initial: map<Pool, set<nat>>, s: State, run: seq<Event>)
    requires Inv(cfg, initial, s) && AllPossible(cfg, AsMeant, s, run)
    ensures AlwaysAgree(cfg, initial, AsMeant, s, run)
    decreases |run|
  {
    hide Inv, Possible, After, ListsLive;
    InvListsLive(cfg, initial, s);
    if run != [] {
      MeantEventKeeps(cfg, initial, s, run[0]);
      MeantRunKeeps(cfg, initial, After(cfg, AsMeant, s, run[0]), run[1..]);
    }
  }

  /**
   * From empty tables, over any run of packets and expiring timers: the tables, timers and ports agree in every state
   * exactly if no lookup on the way does harm.
   */
  lemma {:induction false} TablesAgreeIff(cfg: Config, initial: map<Pool, set<nat>>, s: State, run: seq<Event>)
    requires IsEmpty(cfg, initial, s) && AllPossible(cfg, AsWritten, s, run)
    ensures AlwaysAgree(cfg, initial, AsWritten, s, run) <==> NeverHarms(cfg, s, run)
  {
    hide Inv, AllPossible, AlwaysAgree, NeverHarms;
    EmptyInv(cfg, initial, s);
    RunIff(cfg, initial, s, run);
  }

  /** With the comparison that is meant they agree in every state of every run. */
  lemma {:induction false} TablesAgreeAsMeant(cfg: Config, initial: map<Pool, set<nat>>, s: State, run: seq<Event>)
    requires IsEmpty(cfg, initial, s) && AllPossible(cfg, AsMeant, s, run)
    ensures AlwaysAgree(cfg, initial, AsMeant, s, run)
  {
    hide Inv, AllPossible, AlwaysAgree;
    EmptyInv(cfg, initial, s);
    MeantRunKeeps(cfg, initial, s, run);
  }

  // ---------- a run that does harm ----------

  function Pools<T>(lip: nat, tcp: T, other: T): map<Pool, T> {
    map[Pool(lip, true) := tcp, Pool(lip, false) := other]
  }

  /** One bucket, and one local address with one TCP port and one UDP port. */
  const SMALL := Config(_ => 0, 1, 60)
  const EMPTY := State(map[], [[]], [[]], 0, map[], Pools(2, [5], [5]))

  /** A packet from port 1024 of client 1 that opens a full-NAT connection, if it gets none. */
  function Opens(memory: nat, proto: nat): Event {
    FromClient(Key(1, 1024, proto), Choice(Some(memory), true, true, true, Some(2)), false)
  }

  function Opened(proto: nat): State {
    State(map[7 := Conn(1, 1024, 2, 5, proto, true)], [[7]], [[7]], 0, map[7 := 60], Pools(2, [], [5]))
  }

  lemma OpensTcp()
    ensures ListsLive(SMALL, EMPTY) && Possible(EMPTY, Opens(7, PROTO_TCP))
    ensures After(SMALL, AsWritten, EMPTY, Opens(7, PROTO_TCP)) == Opened(PROTO_TCP)
  {
    var k := Key(1, 1024, PROTO_TCP);
    var ch := Opens(7, PROTO_TCP).choice;
    assert Bucket(SMALL, k) == 0 && BucketOf(SMALL, EMPTY, k, true) == [];
    assert Lookup(SMALL, AsWritten, EMPTY, k, true) == Found(map[], None);
    assert EMPTY.(conns := map[]) == EMPTY;
    assert PR.Get([5], 0) == PR.Got(5, []);
    var s1 := EMPTY.(free := EMPTY.free[Pool(2, true) := []]);
    assert s1.free == Pools(2, [], [5]);
    var c := Conn(1, 1024, 2, 5, PROTO_TCP, true);
    assert Create(SMALL, EMPTY, k, ch) == Created(Enter(SMALL, s1, 7, c), Some(7));
    var none: seq<nat> := [];
    assert [7] + none == [7];
    assert Linked([none], 0, 7) == [[7]];
  }

  lemma UdpTakesOver()
    ensures ListsLive(SMALL, Opened(PROTO_TCP)) && Possible(Opened(PROTO_TCP), Opens(8, 17))
    ensures !DoesNoHarm(SMALL, Opened(PROTO_TCP), Opens(8, 17))
  {
    assert !SamePlaces(SMALL, Opened(PROTO_TCP).conns[7], 17);
  }

  /**
   * Two packets after start: a client opens a TCP connection, then sends a UDP packet from the same port whose key
   * falls into the same bucket. It gets the TCP connection, whose port then belongs to no pool.
   */
  lemma UdpAfterTcpHarms()
    ensures var initial, run := Pools(2, {5}, {5}), [Opens(7, PROTO_TCP), Opens(8, 17)];
            && IsEmpty(SMALL, initial, EMPTY)
            && AllPossible(SMALL, AsWritten, EMPTY, run)
            && !AlwaysAgree(SMALL, initial, AsWritten, EMPTY, run)
  {
    hide After, DoesNoHarm, Possible, ListsLive;
    var initial, run := Pools(2, {5}, {5}), [Opens(7, PROTO_TCP), Opens(8, 17)];
    OpensTcp();
    UdpTakesOver();
    assert run[1..] == [Opens(8, 17)] && run[1..][1..] == [];
    assert PR.Conserved({5}, PR.Ports([5], {}));
    assert IsEmpty(SMALL, initial, EMPTY);
    assert AllPossible(SMALL, AsWritten, Opened(PROTO_TCP), [Opens(8, 17)]);
    TablesAgreeIff(SMALL, initial, EMPTY, run);
  }
}
