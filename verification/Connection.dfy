/** uspace/src/connection.c: connections in two hash tables, in the timer wheel, and holding a port each. */
module Connection {
  import opened Common
  import opened Timer
  import PR = PortRange

  const PROTO_TCP: nat := 6
  const CONNECTION_TIMEOUT_SECONDS := 60

  /** What the hash tables are searched by. */
  datatype Key = Key(ip: nat, port: nat, proto: nat)

  /** A local address has one range of TCP ports and one for every other protocol. */
  datatype Pool = Pool(lip: nat, tcp: bool)

  datatype Conn = Conn(clientIp: nat, clientPort: nat, lip: nat, selfPort: nat, proto: nat, fullnat: bool) {
    function ClientKey(): Key {
      Key(clientIp, clientPort, proto)
    }

    function SelfKey(): Key {
      Key(lip, selfPort, proto)
    }

    function PortPool(): Pool {
      Pool(lip, proto == PROTO_TCP)
    }
  }

  /** Live connections, both hash tables as lists of connections, due times of their timers, and free ports. */
  datatype State = State(
    conns: map<nat, Conn>,
    client: seq<seq<nat>>,
    self: seq<seq<nat>>,
    ticks: nat,
    due: map<nat, nat>,
    free: map<Pool, seq<nat>>)

  /** The hash and the sizes of the tables and of the wheel. */
  datatype Config = Config(hash: Key -> nat, size: nat, total: nat)

  function Bucket(cfg: Config, k: Key): (i: nat)
    requires cfg.size > 0
    ensures i < cfg.size
  {
    cfg.hash(k) % cfg.size
  }

  // ---------- connection_lookup ----------

  /** The two comparisons with == of connection_client_eq and connection_self_eq. */
  predicate SameAddress(c: Conn, k: Key, isClient: bool) {
    if isClient then c.clientIp == k.ip && c.clientPort == k.port else c.lip == k.ip && c.selfPort == k.port
  }

  datatype Found = Found(conns: map<nat, Conn>, cp: Option<nat>)

  /**
   * The walk over a bucket. The third operand of the source's comparison is the assignment cp->protocol = proto: a
   * connection with the same address takes over the protocol looked for, and is a match unless that is 0.
   */
  function Walk(conns: map<nat, Conn>, list: seq<nat>, k: Key, isClient: bool): Found
    requires forall id | id in list :: id in conns
  {
    if list == [] then Found(conns, None)
    else if SameAddress(conns[list[0]], k, isClient) then
      var conns' := conns[list[0] := conns[list[0]].(proto := k.proto)];
      if k.proto != 0 then Found(conns', Some(list[0])) else Walk(conns', list[1..], k, isClient)
    else Walk(conns, list[1..], k, isClient)
  }

  /** The first connection of the bucket with the address of k. */
  function FirstAt(conns: map<nat, Conn>, list: seq<nat>, k: Key, isClient: bool): (r: Option<nat>)
    requires forall id | id in list :: id in conns
    ensures r.Some? ==> r.value in list && SameAddress(conns[r.value], k, isClient)
    ensures r.None? ==> forall id | id in list :: !SameAddress(conns[id], k, isClient)
  {
    if list == [] then None
    else if SameAddress(conns[list[0]], k, isClient) then Some(list[0])
    else FirstAt(conns, list[1..], k, isClient)
  }

  /** None in front of it has that address. */
  lemma {:induction false} FirstIs(conns: map<nat, Conn>, list: seq<nat>, k: Key, isClient: bool, i: nat)
    requires (forall id | id in list :: id in conns) && i < |list| && SameAddress(conns[list[i]], k, isClient)
    requires forall j | 0 <= j < i :: !SameAddress(conns[list[j]], k, isClient)
    ensures FirstAt(conns, list, k, isClient) == Some(list[i])
  {
    if i > 0 {
      assert !SameAddress(conns[list[0]], k, isClient);
      FirstIs(conns, list[1..], k, isClient, i - 1);
    }
  }

  /** What a lookup is for: nothing changes, and the result is the connection with this key, if there is one. */
  ghost predicate Exact(conns: map<nat, Conn>, list: seq<nat>, k: Key, isClient: bool, found: Found)
    requires forall id | id in list :: id in conns
  {
    && found.conns == conns
    && match found.cp
       case Some(id) => id in list && SameAddress(conns[id], k, isClient) && conns[id].proto == k.proto
       case None => forall id | id in list :: !(SameAddress(conns[id], k, isClient) && conns[id].proto == k.proto)
  }

  /** The first connection with this address in the bucket has the protocol that is looked for. */
  predicate Clean(conns: map<nat, Conn>, list: seq<nat>, k: Key, isClient: bool)
    requires forall id | id in list :: id in conns
  {
    match FirstAt(conns, list, k, isClient)
    case None => true
    case Some(id) => k.proto != 0 && conns[id].proto == k.proto
  }

  /** The connections whose protocol a walk overwrites. */
  function Overwritten(conns: map<nat, Conn>, list: seq<nat>, k: Key, isClient: bool): (ids: set<nat>)
    requires forall id | id in list :: id in conns
    ensures ids <= conns.Keys
  {
    if k.proto == 0 then set id | id in list && SameAddress(conns[id], k, isClient)
    else match FirstAt(conns, list, k, isClient) case None => {} case Some(id) => {id}
  }

  function TakeOver(conns: map<nat, Conn>, ids: set<nat>, proto: nat): map<nat, Conn> {
    map id | id in conns :: if id in ids then conns[id].(proto := proto) else conns[id]
  }

  /**
   * For every bucket and key: a packet gets the first connection with its address, whatever the protocol of that
   * connection, and makes it one of its own protocol; with protocol 0 it gets none, and all with its address become 0.
   */
  lemma {:induction false} WalkTakesOver(conns: map<nat, Conn>, list: seq<nat>, k: Key, isClient: bool)
    requires forall id | id in list :: id in conns
    ensures Walk(conns, list, k, isClient) ==
            Found(TakeOver(conns, Overwritten(conns, list, k, isClient), k.proto),
                  if k.proto == 0 then None else FirstAt(conns, list, k, isClient))
  {
    if list != [] {
      var rest := list[1..];
      assert list == [list[0]] + rest;
      if !SameAddress(conns[list[0]], k, isClient) {
        WalkTakesOver(conns, rest, k, isClient);
      } else if k.proto == 0 {
        var conns' := conns[list[0] := conns[list[0]].(proto := 0)];
        WalkTakesOver(conns', rest, k, isClient);
        assert Overwritten(conns, list, k, isClient) == Overwritten(conns', rest, k, isClient) + {list[0]};
      }
    }
  }

  /** The lookup does what it is for exactly on clean buckets. */
  lemma {:induction false} LookupExactIffClean(conns: map<nat, Conn>, list: seq<nat>, k: Key, isClient: bool)
    requires forall id | id in list :: id in conns
    ensures Exact(conns, list, k, isClient, Walk(conns, list, k, isClient)) <==> Clean(conns, list, k, isClient)
    ensures Clean(conns, list, k, isClient) ==>
              Walk(conns, list, k, isClient) == Found(conns, FirstAt(conns, list, k, isClient))
  {
    WalkTakesOver(conns, list, k, isClient);
    var ids := Overwritten(conns, list, k, isClient);
    assert (forall id | id in ids :: conns[id].proto == k.proto) <==> TakeOver(conns, ids, k.proto) == conns by {
      forall id | id in ids ensures TakeOver(conns, ids, k.proto)[id].proto == k.proto {}
    }
  }

  // ---------- connection_create and connection_free ----------

  /** What create finds in the memory pool and in the registries. */
  datatype Choice = Choice(memory: Option<nat>, fullnat: bool, server: bool, route: bool, lip: Option<nat>)

  datatype Created = Created(state: State, cp: Option<nat>)

  function Linked(table: seq<seq<nat>>, i: nat, id: nat): seq<seq<nat>>
    requires i < |table|
  {
    table[i := [id] + table[i]]
  }

  /** connection_add and timer_add */
  function Enter(cfg: Config, s: State, id: nat, c: Conn): State
    requires cfg.size > 0 && cfg.total > 0 && |s.client| == |s.self| == cfg.size
  {
    State(
      s.conns[id := c],
      Linked(s.client, Bucket(cfg, c.ClientKey()), id),
      if c.fullnat then Linked(s.self, Bucket(cfg, c.SelfKey()), id) else s.self,
      s.ticks,
      s.due[id := s.ticks + Delay(CONNECTION_TIMEOUT_SECONDS, cfg.total)],
      s.free)
  }

  /** connection_create for a packet from client key k of a virtual server of the same protocol. */
  function Create(cfg: Config, s: State, k: Key, ch: Choice): Created
    requires cfg.size > 0 && cfg.total > 0 && |s.client| == |s.self| == cfg.size
    requires ch.lip.Some? ==> Pool(ch.lip.value, k.proto == PROTO_TCP) in s.free
  {
    if ch.memory.None? || !ch.server || !ch.route then Created(s, None)
    else if !ch.fullnat then
      Created(Enter(cfg, s, ch.memory.value, Conn(k.ip, k.port, 0, 0, k.proto, false)), ch.memory)
    else if ch.lip.None? then Created(s, None)
    else
      var pool := Pool(ch.lip.value, k.proto == PROTO_TCP);
      var got := PR.Get(s.free[pool], 0);
      var s1 := s.(free := s.free[pool := got.free]);
      if got.port == 0 then Created(s1, None)
      else
        var c := Conn(k.ip, k.port, ch.lip.value, got.port, k.proto, true);
        Created(Enter(cfg, s1, ch.memory.value, c), ch.memory)
  }

  /** connection_free */
  function Free(s: State, id: nat): State {
    if id !in s.conns then s
    else
      var c := s.conns[id];
      State(
        s.conns - {id},
        Unlinked(s.client, id),
        if c.fullnat then Unlinked(s.self, id) else s.self,
        s.ticks,
        s.due - {id},
        if c.fullnat && c.PortPool() in s.free
        then s.free[c.PortPool() := PR.Put(s.free[c.PortPool()], c.selfPort)] else s.free)
  }

  /** The timers that expire, in the order in which they are handled. */
  function FreeAll(s: State, batch: seq<Firing>): State
    decreases |batch|
  {
    if batch == [] then s else FreeAll(Free(s, batch[0].timer), batch[1..])
  }

  // ---------- the invariant ----------

  /** A table holds exactly the entries of want, each in its bucket and once. */
  ghost predicate Indexed(table: seq<seq<nat>>, want: map<nat, nat>) {
    && (forall i {:trigger table[i]} | 0 <= i < |table| :: Distinct(table[i]))
    && (forall i: int, id: nat {:trigger Slotted(table, i, id)} ::
          Slotted(table, i, id) <==> id in want && i == want[id] && i < |table|)
    && (forall id | id in want :: want[id] < |table|)
  }

  function ClientIndex(cfg: Config, conns: map<nat, Conn>): map<nat, nat>
    requires cfg.size > 0
  {
    map id | id in conns :: Bucket(cfg, conns[id].ClientKey())
  }

  function SelfIndex(cfg: Config, conns: map<nat, Conn>): map<nat, nat>
    requires cfg.size > 0
  {
    map id | id in conns && conns[id].fullnat :: Bucket(cfg, conns[id].SelfKey())
  }

  function Held(conns: map<nat, Conn>, pool: Pool): set<nat> {
    set id | id in conns && conns[id].fullnat && conns[id].PortPool() == pool :: conns[id].selfPort
  }

  ghost predicate UniqueClients(conns: map<nat, Conn>) {
    forall a, b | a in conns && b in conns && a != b :: conns[a].ClientKey() != conns[b].ClientKey()
  }

  ghost predicate UniquePorts(conns: map<nat, Conn>) {
    forall a, b | a in conns && b in conns && a != b && conns[a].fullnat && conns[b].fullnat ::
      conns[a].PortPool() == conns[b].PortPool() ==> conns[a].selfPort != conns[b].selfPort
  }

  ghost predicate PortsKept(initial: map<Pool, set<nat>>, conns: map<nat, Conn>, free: map<Pool, seq<nat>>) {
    && free.Keys == initial.Keys
    && (forall id | id in conns && conns[id].fullnat :: conns[id].PortPool() in free)
    && (forall pool | pool in free :: PR.Conserved(initial[pool], PR.Ports(free[pool], Held(conns, pool))))
    && UniquePorts(conns)
  }

  ghost predicate TimersKept(cfg: Config, s: State) {
    s.due.Keys == s.conns.Keys && forall id | id in s.due :: s.ticks < s.due[id] <= s.ticks + cfg.total
  }

  /** The two tables, the timers and the port ranges agree on which connections are live. */
  ghost predicate Inv(cfg: Config, initial: map<Pool, set<nat>>, s: State) {
    && cfg.size > 0 && cfg.total > 0 && |s.client| == |s.self| == cfg.size
    && Indexed(s.client, ClientIndex(cfg, s.conns))
    && Indexed(s.self, SelfIndex(cfg, s.conns))
    && TimersKept(cfg, s)
    && UniqueClients(s.conns)
    && PortsKept(initial, s.conns, s.free)
  }

  /** No two live full-NAT connections share the address that servers answer to. */
  lemma SelfKeysUnique(cfg: Config, initial: map<Pool, set<nat>>, s: State, a: nat, b: nat)
    requires Inv(cfg, initial, s) && a in s.conns && b in s.conns && a != b
    requires s.conns[a].fullnat && s.conns[b].fullnat
    ensures s.conns[a].SelfKey() != s.conns[b].SelfKey()
  {
    hide Indexed, TimersKept, UniqueClients;
  }

  // ---------- every step keeps it ----------

  /** The entries of a bucket other than id, in order. */
  function Others(list: seq<nat>, id: nat): seq<nat> {
    if list == [] then [] else (if list[0] == id then [] else [list[0]]) + Others(list[1..], id)
  }

  lemma {:induction false} OthersStay(list: seq<nat>, id: nat)
    ensures Others(Without(list, id), id) == Others(list, id)
  {
    if list != [] && list[0] != id {
      OthersStay(list[1..], id);
      assert Without(list, id)[1..] == Without(list[1..], id);
    }
  }

  lemma OthersBehind(list: seq<nat>, id: nat)
    ensures Others([id] + list, id) == Others(list, id)
  {
    assert ([id] + list)[1..] == list;
  }

  /** Entering a table: the entry comes first in its bucket and is in no other one; all others keep their order. */
  lemma {:induction false} IndexedLinked(table: seq<seq<nat>>, want: map<nat, nat>, id: nat, i: nat)
    requires Indexed(table, want) && id !in want && i < |table|
    ensures var table' := Linked(table, i, id);
            && Indexed(table', want[id := i])
            && table'[i] != [] && table'[i][0] == id
            && forall j: nat | j < |table| :: Others(table'[j], id) == Others(table[j], id)
  {
    hide Others;
    var table' := Linked(table, i, id);
    assert !Slotted(table, i, id);
    forall j: int, x: nat | true
      ensures Slotted(table', j, x) <==> Slotted(table, j, x) || (j == i && x == id)
    {
    }
    OthersBehind(table[i], id);
  }

  /** Leaving a table: the entry is in no bucket any more; all others keep their order. */
  lemma {:induction false} IndexedUnlinked(table: seq<seq<nat>>, want: map<nat, nat>, id: nat)
    requires Indexed(table, want)
    ensures var table' := Unlinked(table, id);
            && Indexed(table', want - {id})
            && forall j: nat | j < |table| :: id !in table'[j] && Others(table'[j], id) == Others(table[j], id)
  {
    hide Others, Without;
    var table' := Unlinked(table, id);
    forall j | 0 <= j < |table|
      ensures Distinct(table'[j]) && forall x: nat :: Slotted(table', j, x) <==> Slotted(table, j, x) && x != id
      ensures Others(table'[j], id) == Others(table[j], id) && id !in table'[j]
    {
      WithoutIs(table[j], id);
      OthersStay(table[j], id);
    }
  }

  lemma {:induction false} EnterKeepsPorts(initial: map<Pool, set<nat>>, conns: map<nat, Conn>,
                                           free: map<Pool, seq<nat>>, id: nat, c: Conn)
    requires PortsKept(initial, conns, free) && id !in conns && c.fullnat && c.PortPool() in free
    requires free[c.PortPool()] != [] && c.selfPort == free[c.PortPool()][0]
    ensures PortsKept(initial, conns[id := c], free[c.PortPool() := free[c.PortPool()][1..]])
  {
    hide PR.Conserved;
    var pool, conns' := c.PortPool(), conns[id := c];
    var free' := free[pool := free[pool][1..]];
    PR.GetAnyConserves(initial[pool], PR.Ports(free[pool], Held(conns, pool)));
    forall p | p in free'
      ensures Held(conns', p) == if p == pool then Held(conns, p) + {c.selfPort} else Held(conns, p)
    {
      HeldEnter(conns, id, c, p);
    }
    forall a | a in conns && conns[a].fullnat && conns[a].PortPool() == pool
      ensures conns[a].selfPort != c.selfPort
    {
      assert conns[a].selfPort in Held(conns, pool);
    }
  }

  lemma {:induction false} HeldEnter(conns: map<nat, Conn>, id: nat, c: Conn, p: Pool)
    requires id !in conns
    ensures Held(conns[id := c], p) ==
            if c.fullnat && p == c.PortPool() then Held(conns, p) + {c.selfPort} else Held(conns, p)
  {
    var conns' := conns[id := c];
    forall q | q in Held(conns, p) ensures q in Held(conns', p) {
      var a :| a in conns && conns[a].fullnat && conns[a].PortPool() == p && conns[a].selfPort == q;
      assert conns'[a] == conns[a];
    }
    if c.fullnat && p == c.PortPool() { assert conns'[id].selfPort in Held(conns', p); }
  }

  lemma {:induction false} TransparentKeepsPorts(initial: map<Pool, set<nat>>, conns: map<nat, Conn>,
                                                 free: map<Pool, seq<nat>>, id: nat, c: Conn)
    requires PortsKept(initial, conns, free) && id !in conns && !c.fullnat
    ensures PortsKept(initial, conns[id := c], free)
  {
    hide PR.Conserved;
    forall p | p in free ensures Held(conns[id := c], p) == Held(conns, p) { HeldEnter(conns, id, c, p); }
  }

  lemma {:induction false} HeldLeave(conns: map<nat, Conn>, id: nat, p: Pool)
    requires id in conns && UniquePorts(conns)
    ensures var c := conns[id];
            Held(conns - {id}, p) ==
            if c.fullnat && p == c.PortPool() then Held(conns, p) - {c.selfPort} else Held(conns, p)
  {
    var c, conns' := conns[id], conns - {id};
    forall q | q in Held(conns, p) && !(c.fullnat && p == c.PortPool() && q == c.selfPort)
      ensures q in Held(conns', p)
    {
      var a :| a in conns && conns[a].fullnat && conns[a].PortPool() == p && conns[a].selfPort == q;
      assert a in conns' && conns'[a] == conns[a];
    }
  }

  lemma {:induction false} LeaveKeepsPorts(initial: map<Pool, set<nat>>, conns: map<nat, Conn>,
                                           free: map<Pool, seq<nat>>, id: nat)
    requires PortsKept(initial, conns, free) && id in conns
    ensures var c := conns[id];
            PortsKept(initial, conns - {id},
                      if c.fullnat then free[c.PortPool() := PR.Put(free[c.PortPool()], c.selfPort)] else free)
  {
    hide PR.Conserved;
    var c := conns[id];
    forall p | p in free
      ensures Held(conns - {id}, p) ==
              if c.fullnat && p == c.PortPool() then Held(conns, p) - {c.selfPort} else Held(conns, p)
    {
      HeldLeave(conns, id, p);
    }
    if c.fullnat {
      var pool := c.PortPool();
      assert c.selfPort in Held(conns, pool);
      var e := PR.GivenBack(c.selfPort);
      assert PR.Allowed(PR.Ports(free[pool], Held(conns, pool)), e);
      PR.EventConserves(initial[pool], PR.Ports(free[pool], Held(conns, pool)), e);
    }
  }

  lemma {:induction false} EnterIndexed(cfg: Config, initial: map<Pool, set<nat>>, s: State, id: nat, c: Conn)
    requires Inv(cfg, initial, s) && id !in s.conns
    ensures Indexed(Linked(s.client, Bucket(cfg, c.ClientKey()), id), ClientIndex(cfg, s.conns[id := c]))
    ensures Indexed(if c.fullnat then Linked(s.self, Bucket(cfg, c.SelfKey()), id) else s.self,
                    SelfIndex(cfg, s.conns[id := c]))
  {
    hide Indexed, PortsKept, TimersKept, UniqueClients, Linked, Bucket;
    IndexedLinked(s.client, ClientIndex(cfg, s.conns), id, Bucket(cfg, c.ClientKey()));
    assert ClientIndex(cfg, s.conns[id := c]) == ClientIndex(cfg, s.conns)[id := Bucket(cfg, c.ClientKey())];
    if c.fullnat {
      IndexedLinked(s.self, SelfIndex(cfg, s.conns), id, Bucket(cfg, c.SelfKey()));
      assert SelfIndex(cfg, s.conns[id := c]) == SelfIndex(cfg, s.conns)[id := Bucket(cfg, c.SelfKey())];
    } else {
      assert SelfIndex(cfg, s.conns[id := c]) == SelfIndex(cfg, s.conns);
    }
  }

  lemma {:induction false} EnterKeeps(cfg: Config, initial: map<Pool, set<nat>>, s: State, free: map<Pool, seq<nat>>,
                                      id: nat, c: Conn)
    requires Inv(cfg, initial, s) && id !in s.conns
    requires forall a | a in s.conns :: s.conns[a].ClientKey() != c.ClientKey()
    requires PortsKept(initial, s.conns[id := c], free)
    ensures Inv(cfg, initial, Enter(cfg, s.(free := free), id, c))
  {
    hide Indexed, PortsKept, ClientIndex, SelfIndex, Bucket;
    EnterIndexed(cfg, initial, s, id, c);
  }

  /** A new connection for a client key that no live connection has; on every error nothing is kept. */
  lemma {:induction false} CreateKeeps(cfg: Config, initial: map<Pool, set<nat>>, s: State, k: Key, ch: Choice)
    requires Inv(cfg, initial, s)
    requires ch.lip.Some? ==> Pool(ch.lip.value, k.proto == PROTO_TCP) in s.free
    requires ch.memory.Some? ==> ch.memory.value !in s.conns
    requires forall a | a in s.conns :: s.conns[a].ClientKey() != k
    ensures var created := Create(cfg, s, k, ch);
            && Inv(cfg, initial, created.state)
            && (created.cp.None? ==> created.state == s)
            && (created.cp.Some? ==> created.cp.value in created.state.conns
                                     && created.state.conns[created.cp.value].ClientKey() == k)
  {
    hide Indexed, TimersKept, UniqueClients, PortsKept, Enter;
    if ch.memory.Some? && ch.server && ch.route {
      var id := ch.memory.value;
      if !ch.fullnat {
        var c := Conn(k.ip, k.port, 0, 0, k.proto, false);
        TransparentKeepsPorts(initial, s.conns, s.free, id, c);
        EnterKeeps(cfg, initial, s, s.free, id, c);
        assert s.(free := s.free) == s;
        Entered(cfg, s, id, c);
      } else if ch.lip.Some? {
        var pool := Pool(ch.lip.value, k.proto == PROTO_TCP);
        if s.free[pool] == [] {
          assert s.free[pool := s.free[pool]] == s.free;
        } else {
          NoZero(initial, s, pool);
          var c := Conn(k.ip, k.port, ch.lip.value, s.free[pool][0], k.proto, true);
          var free := s.free[pool := s.free[pool][1..]];
          EnterKeepsPorts(initial, s.conns, s.free, id, c);
          EnterKeeps(cfg, initial, s, free, id, c);
          Entered(cfg, s.(free := free), id, c);
        }
      }
    }
  }

  /**
   * When a packet gets a connection, and what that connection is: its client is that of the packet, with full NAT it
   * has the oldest free port of the local address, and its timer is set to 60 seconds or a whole turn of the wheel.
   */
  lemma {:induction false} CreateGives(cfg: Config, initial: map<Pool, set<nat>>, s: State, k: Key, ch: Choice)
    requires Inv(cfg, initial, s) && (ch.lip.Some? ==> Pool(ch.lip.value, k.proto == 6) in s.free)
    ensures var created := Create(cfg, s, k, ch);
            && (created.cp.None? ==> created.state == s)
            && (created.cp.Some? <==>
                  && ch.memory.Some? && ch.server && ch.route
                  && (ch.fullnat ==> ch.lip.Some? && s.free[Pool(ch.lip.value, k.proto == 6)] != []))
            && (created.cp.Some? ==>
                  && created.cp == ch.memory && created.state.ticks == s.ticks
                  && created.state.due == s.due[created.cp.value := s.ticks + if cfg.total < 60 then cfg.total else 60])
    ensures var created := Create(cfg, s, k, ch);
            created.cp.Some? && !ch.fullnat ==>
              && created.state.conns == s.conns[created.cp.value := Conn(k.ip, k.port, 0, 0, k.proto, false)]
              && created.state.free == s.free
    ensures var created := Create(cfg, s, k, ch);
            created.cp.Some? && ch.fullnat ==>
              var free := s.free[Pool(ch.lip.value, k.proto == 6)];
              && created.state.conns ==
                 s.conns[created.cp.value := Conn(k.ip, k.port, ch.lip.value, free[0], k.proto, true)]
              && created.state.free == s.free[Pool(ch.lip.value, k.proto == 6) := free[1..]]
  {
    hide Indexed, TimersKept, UniqueClients, PortsKept, Linked, Bucket;
    if ch.fullnat && ch.lip.Some? {
      var pool := Pool(ch.lip.value, k.proto == PROTO_TCP);
      if s.free[pool] == [] {
        assert s.free[pool := s.free[pool]] == s.free;
      } else {
        NoZero(initial, s, pool);
      }
    }
  }

  /** What a closed connection gives up, and that nothing of the others changes. */
  lemma {:induction false} FreeGives(cfg: Config, initial: map<Pool, set<nat>>, s: State, id: nat)
    requires Inv(cfg, initial, s)
    ensures Free(s, id).conns == s.conns - {id} && Free(s, id).due == s.due - {id} && Free(s, id).ticks == s.ticks
    ensures if id in s.conns && s.conns[id].fullnat then
              var c := s.conns[id];
              var pool := Pool(c.lip, c.proto == 6);
              && pool in s.free && c.selfPort != 0
              && Free(s, id).free == s.free[pool := s.free[pool] + [c.selfPort]]
            else
              Free(s, id).free == s.free
  {
    hide Indexed, UniqueClients, PortsKept, Unlinked;
    if id in s.conns {
      if s.conns[id].fullnat {
        HasPool(initial, s.conns, s.free, id);
        NotZero(initial, s, id);
      }
    } else {
      assert s.conns - {id} == s.conns && s.due - {id} == s.due;
    }
  }

  lemma NotZero(initial: map<Pool, set<nat>>, s: State, id: nat)
    requires PortsKept(initial, s.conns, s.free) && id in s.conns && s.conns[id].fullnat
    ensures s.conns[id].selfPort != 0
  {
    var pool := s.conns[id].PortPool();
    assert PR.Conserved(initial[pool], PR.Ports(s.free[pool], Held(s.conns, pool)));
    assert s.conns[id].selfPort in Held(s.conns, pool);
  }

  lemma NoZero(initial: map<Pool, set<nat>>, s: State, pool: Pool)
    requires PortsKept(initial, s.conns, s.free) && pool in s.free && s.free[pool] != []
    ensures s.free[pool][0] != 0
  {
    assert PR.Conserved(initial[pool], PR.Ports(s.free[pool], Held(s.conns, pool)));
    assert s.free[pool][0] in PR.Members(s.free[pool]);
  }

  lemma Entered(cfg: Config, s: State, id: nat, c: Conn)
    requires cfg.size > 0 && cfg.total > 0 && |s.client| == |s.self| == cfg.size
    ensures Enter(cfg, s, id, c).conns == s.conns[id := c]
  {
  }

  lemma {:induction false} LeaveIndexed(cfg: Config, s: State, id: nat)
    requires cfg.size > 0 && id in s.conns
    requires Indexed(s.client, ClientIndex(cfg, s.conns)) && Indexed(s.self, SelfIndex(cfg, s.conns))
    ensures Indexed(Unlinked(s.client, id), ClientIndex(cfg, s.conns - {id}))
    ensures Indexed(if s.conns[id].fullnat then Unlinked(s.self, id) else s.self, SelfIndex(cfg, s.conns - {id}))
  {
    hide Indexed, Bucket, Unlinked;
    IndexedUnlinked(s.client, ClientIndex(cfg, s.conns), id);
    assert ClientIndex(cfg, s.conns - {id}) == ClientIndex(cfg, s.conns) - {id};
    assert SelfIndex(cfg, s.conns - {id}) == SelfIndex(cfg, s.conns) - {id};
    if s.conns[id].fullnat {
      IndexedUnlinked(s.self, SelfIndex(cfg, s.conns), id);
    } else {
      assert SelfIndex(cfg, s.conns) - {id} == SelfIndex(cfg, s.conns);
    }
  }

  lemma {:induction false} FreeKeeps(cfg: Config, initial: map<Pool, set<nat>>, s: State, id: nat)
    requires Inv(cfg, initial, s)
    ensures Inv(cfg, initial, Free(s, id))
  {
    hide Indexed, PortsKept, ClientIndex, SelfIndex;
    if id in s.conns {
      LeaveIndexed(cfg, s, id);
      if s.conns[id].fullnat { HasPool(initial, s.conns, s.free, id); }
      LeaveKeepsPorts(initial, s.conns, s.free, id);
    }
  }

  lemma HasPool(initial: map<Pool, set<nat>>, conns: map<nat, Conn>, free: map<Pool, seq<nat>>, id: nat)
    requires PortsKept(initial, conns, free) && id in conns && conns[id].fullnat
    ensures conns[id].PortPool() in free
  {
  }

  // ---------- a connection of another protocol is taken over ----------

  /** Under protocol p the connection belongs into the same buckets and has its port from the same pool. */
  predicate SamePlaces(cfg: Config, c: Conn, p: nat)
    requires cfg.size > 0
  {
    && Bucket(cfg, c.(proto := p).ClientKey()) == Bucket(cfg, c.ClientKey())
    && (c.fullnat ==> Bucket(cfg, c.(proto := p).SelfKey()) == Bucket(cfg, c.SelfKey()) && SamePool(c, p))
  }

  predicate SamePool(c: Conn, p: nat) {
    c.proto == PROTO_TCP <==> p == PROTO_TCP
  }

  /** No connection of the client of id has protocol p or gets it together with id. */
  predicate OnlyOne(conns: map<nat, Conn>, ids: set<nat>, id: nat, p: nat)
    requires id in conns
  {
    forall b | b in conns && b != id && conns[b].ClientKey().(proto := p) == conns[id].ClientKey().(proto := p) ::
      b !in ids && conns[b].proto != p
  }

  predicate Harmless(cfg: Config, conns: map<nat, Conn>, ids: set<nat>, p: nat)
    requires cfg.size > 0 && ids <= conns.Keys
  {
    forall id | id in ids :: SamePlaces(cfg, conns[id], p) && OnlyOne(conns, ids, id, p)
  }

  /** A table holds the entries of no other index. */
  lemma {:induction false} IndexedOnce(table: seq<seq<nat>>, want: map<nat, nat>, want': map<nat, nat>)
    requires Indexed(table, want) && want'.Keys == want.Keys
    ensures Indexed(table, want') <==> want' == want
  {
    if Indexed(table, want') {
      forall id | id in want ensures want[id] == want'[id] {
        assert Slotted(table, want[id], id);
      }
    }
  }

  lemma {:induction false} IndexesKept(cfg: Config, s: State, ids: set<nat>, p: nat)
    requires cfg.size > 0 && ids <= s.conns.Keys
    requires Indexed(s.client, ClientIndex(cfg, s.conns)) && Indexed(s.self, SelfIndex(cfg, s.conns))
    ensures var conns := TakeOver(s.conns, ids, p);
            Indexed(s.client, ClientIndex(cfg, conns)) && Indexed(s.self, SelfIndex(cfg, conns)) <==>
            forall id | id in ids ::
              var c := s.conns[id];
              && Bucket(cfg, c.(proto := p).ClientKey()) == Bucket(cfg, c.ClientKey())
              && (c.fullnat ==> Bucket(cfg, c.(proto := p).SelfKey()) == Bucket(cfg, c.SelfKey()))
  {
    hide Indexed, Bucket;
    var conns := TakeOver(s.conns, ids, p);
    var client, client' := ClientIndex(cfg, s.conns), ClientIndex(cfg, conns);
    var self, self' := SelfIndex(cfg, s.conns), SelfIndex(cfg, conns);
    IndexedOnce(s.client, client, client');
    IndexedOnce(s.self, self, self');
    forall id | id in ids
      ensures client'[id] == Bucket(cfg, s.conns[id].(proto := p).ClientKey())
      ensures s.conns[id].fullnat ==> self'[id] == Bucket(cfg, s.conns[id].(proto := p).SelfKey())
    {
    }
  }

  lemma {:induction false} ClientsStayUnique(conns: map<nat, Conn>, ids: set<nat>, p: nat)
    requires UniqueClients(conns) && ids <= conns.Keys
    ensures UniqueClients(TakeOver(conns, ids, p)) <==> forall id | id in ids :: OnlyOne(conns, ids, id, p)
  {
    var conns' := TakeOver(conns, ids, p);
    if UniqueClients(conns') {
      forall id, b | id in ids && b in conns && b != id
                     && conns[b].ClientKey().(proto := p) == conns[id].ClientKey().(proto := p)
        ensures b !in ids && conns[b].proto != p
      {
        assert conns'[id].ClientKey() != conns'[b].ClientKey();
      }
    }
    if forall id | id in ids :: OnlyOne(conns, ids, id, p) {
      forall a, b | a in conns' && b in conns' && a != b ensures conns'[a].ClientKey() != conns'[b].ClientKey() {
        assert conns[a].ClientKey() != conns[b].ClientKey();
        assert a in ids ==> OnlyOne(conns, ids, a, p);
        assert b in ids ==> OnlyOne(conns, ids, b, p);
      }
    }
  }

  /** The port of a connection that has changed its pool is lost to the pool it came from. */
  lemma {:induction false} PortLost(initial: map<Pool, set<nat>>, conns: map<nat, Conn>, free: map<Pool, seq<nat>>,
                                    conns': map<nat, Conn>, free': map<Pool, seq<nat>>, id: nat)
    requires PortsKept(initial, conns, free) && id in conns && conns[id].fullnat
    requires conns[id].PortPool() in free' && free'[conns[id].PortPool()] == free[conns[id].PortPool()]
    requires conns[id].selfPort !in Held(conns', conns[id].PortPool())
    ensures !PortsKept(initial, conns', free')
  {
    var pool, port := conns[id].PortPool(), conns[id].selfPort;
    assert port in Held(conns, pool);
    assert PR.Conserved(initial[pool], PR.Ports(free[pool], Held(conns, pool)));
    assert !PR.Conserved(initial[pool], PR.Ports(free'[pool], Held(conns', pool)));
  }

  lemma {:induction false} PortsStay(initial: map<Pool, set<nat>>, conns: map<nat, Conn>, free: map<Pool, seq<nat>>,
                                     ids: set<nat>, p: nat)
    requires PortsKept(initial, conns, free) && ids <= conns.Keys
    ensures PortsKept(initial, TakeOver(conns, ids, p), free) <==>
            forall id | id in ids && conns[id].fullnat :: SamePool(conns[id], p)
  {
    hide PR.Conserved;
    var conns' := TakeOver(conns, ids, p);
    if forall id | id in ids && conns[id].fullnat :: SamePool(conns[id], p) {
      forall a | a in conns && conns[a].fullnat
        ensures conns'[a].PortPool() == conns[a].PortPool() && conns'[a].fullnat
        ensures conns'[a].selfPort == conns[a].selfPort
      {
      }
      forall pool | pool in free ensures Held(conns', pool) == Held(conns, pool) { HeldSame(conns, conns', pool); }
    } else {
      var id :| id in ids && conns[id].fullnat && !SamePool(conns[id], p);
      PortGone(conns, ids, p, id);
      PortLost(initial, conns, free, conns', free, id);
    }
  }

  lemma {:induction false} HeldSame(conns: map<nat, Conn>, conns': map<nat, Conn>, pool: Pool)
    requires conns'.Keys == conns.Keys
    requires forall a | a in conns :: conns'[a].fullnat == conns[a].fullnat
    requires forall a | a in conns && conns[a].fullnat ::
               conns'[a].PortPool() == conns[a].PortPool() && conns'[a].selfPort == conns[a].selfPort
    ensures Held(conns', pool) == Held(conns, pool)
  {
    forall q | q in Held(conns, pool) ensures q in Held(conns', pool) {
      var a :| a in conns && conns[a].fullnat && conns[a].PortPool() == pool && conns[a].selfPort == q;
      assert conns'[a].PortPool() == pool;
    }
  }

  lemma {:induction false} PortGone(conns: map<nat, Conn>, ids: set<nat>, p: nat, id: nat)
    requires UniquePorts(conns) && ids <= conns.Keys && id in ids && conns[id].fullnat && !SamePool(conns[id], p)
    ensures conns[id].selfPort !in Held(TakeOver(conns, ids, p), conns[id].PortPool())
  {
    var pool, conns' := conns[id].PortPool(), TakeOver(conns, ids, p);
    forall a | a in conns' && conns'[a].fullnat && conns'[a].PortPool() == pool
      ensures conns'[a].selfPort != conns[id].selfPort
    {
      assert a !in ids;
    }
  }

  /** Exactly when tables, timers and ports still agree after connections have been taken over. */
  lemma {:induction false} TakeOverKeepsIffHarmless(cfg: Config, initial: map<Pool, set<nat>>, s: State,
                                                    ids: set<nat>, p: nat)
    requires Inv(cfg, initial, s) && ids <= s.conns.Keys
    ensures Inv(cfg, initial, s.(conns := TakeOver(s.conns, ids, p))) <==> Harmless(cfg, s.conns, ids, p)
  {
    hide Indexed, UniqueClients, PortsKept, OnlyOne, Bucket, SelfIndex, ClientIndex;
    IndexesKept(cfg, s, ids, p);
    ClientsStayUnique(s.conns, ids, p);
    PortsStay(initial, s.conns, s.free, ids, p);
  }

  /** A connection that was taken over and is freed at once gives its port back to its pool only if that is the same. */
  lemma {:induction false} FreeTakenOver(cfg: Config, initial: map<Pool, set<nat>>, s: State, id: nat, p: nat)
    requires Inv(cfg, initial, s) && id in s.conns
    ensures Inv(cfg, initial, Free(s.(conns := TakeOver(s.conns, {id}, p)), id)) <==>
            (s.conns[id].fullnat ==> SamePool(s.conns[id], p))
  {
    hide Indexed, UniqueClients, PortsKept;
    var c, conns' := s.conns[id], TakeOver(s.conns, {id}, p);
    var s' := Free(s.(conns := conns'), id);
    assert conns' - {id} == s.conns - {id};
    FreeKeeps(cfg, initial, s, id);
    if c.fullnat && !SamePool(c, p) {
      HasPool(initial, s.conns, s.free, id);
      UniqueOf(initial, s.conns, s.free);
      HeldLeave(s.conns, id, c.PortPool());
      PortLost(initial, s.conns, s.free, s'.conns, s'.free, id);
    }
  }

  lemma UniqueOf(initial: map<Pool, set<nat>>, conns: map<nat, Conn>, free: map<Pool, seq<nat>>)
    requires PortsKept(initial, conns, free)
    ensures UniquePorts(conns)
  {
  }

  // ---------- the buckets of a key ----------

  function BucketOf(cfg: Config, s: State, k: Key, isClient: bool): seq<nat>
    requires cfg.size > 0 && |s.client| == |s.self| == cfg.size
  {
    if isClient then s.client[Bucket(cfg, k)] else s.self[Bucket(cfg, k)]
  }

  ghost predicate ListsLive(cfg: Config, s: State) {
    && cfg.size > 0 && cfg.total > 0 && |s.client| == |s.self| == cfg.size
    && forall i, id | 0 <= i < cfg.size && (id in s.client[i] || id in s.self[i]) :: id in s.conns
  }

  lemma InvListsLive(cfg: Config, initial: map<Pool, set<nat>>, s: State)
    requires Inv(cfg, initial, s)
    ensures ListsLive(cfg, s)
  {
    forall i, id | 0 <= i < cfg.size && (id in s.client[i] || id in s.self[i]) ensures id in s.conns {
      assert Slotted(s.client, i, id) || Slotted(s.self, i, id);
    }
  }

  // ---------- the code ----------

  /** The module's two tables and its connections, the timer wheel, and the port ranges of the local addresses. */
  class ConnectionTables {
    const cfg: Config
    var conns: map<nat, Conn>
    var client: seq<seq<nat>>
    var self: seq<seq<nat>>
    const clock: Clock
    const ranges: map<Pool, PR.PortRange>

    /** The objects of the port ranges and their buffers. */
    ghost const rangeRepr: set<object>

    ghost predicate RangesValid()
      reads rangeRepr
    {
      && (forall p | p in ranges :: ranges[p] in rangeRepr && ranges[p].ports in rangeRepr && ranges[p].Valid())
      && (forall p, q | p in ranges && q in ranges && p != q ::
            ranges[p] != ranges[q] && ranges[p].ports != ranges[q].ports)
    }

    ghost function FreePorts(): (free: map<Pool, seq<nat>>)
      requires RangesValid()
      reads rangeRepr
      ensures free.Keys == ranges.Keys
    {
      map p | p in ranges :: ranges[p].Free()
    }

    ghost function View(): State
      requires RangesValid()
      reads this, clock, rangeRepr
    {
      State(conns, client, self, clock.ticks, clock.due, FreePorts())
    }

    ghost predicate Valid()
      reads this, clock, rangeRepr
    {
      && RangesValid() && this !in rangeRepr && clock !in rangeRepr
      && clock.Valid() && clock.totalClockSeconds == cfg.total && Linking(cfg, View())
    }

    /** connection_module_init; the wheel and the port ranges are set up by their own modules. */
    constructor (cfg: Config, clock: Clock, ranges: map<Pool, PR.PortRange>)
      requires cfg.size > 0 && clock.Valid() && clock.totalClockSeconds == cfg.total && clock.due == map[]
      requires forall p | p in ranges :: ranges[p].Valid()
      requires forall p, q | p in ranges && q in ranges && p != q ::
                 ranges[p] != ranges[q] && ranges[p].ports != ranges[q].ports
      ensures this.cfg == cfg && this.clock == clock && this.ranges == ranges && Valid()
      ensures var s := View();
              s.conns == map[] && forall i | 0 <= i < cfg.size :: s.client[i] == [] && s.self[i] == []
      ensures FreePorts() == map p | p in ranges :: ranges[p].Free()
    {
      hide PR.PortRange.Free, PR.PortRange.Valid;
      this.cfg, this.clock, this.ranges := cfg, clock, ranges;
      rangeRepr := (set p | p in ranges :: ranges[p]) + (set p | p in ranges :: ranges[p].ports);
      conns := map[];
      client, self := seq(cfg.size, _ => []), seq(cfg.size, _ => []);
    }

    /** connection_lookup */
    method Lookup(ip: nat, port: nat, proto: nat, isClient: bool) returns (cp: Option<nat>)
      requires Valid()
      modifies this`conns
      ensures Valid()
      ensures var k := Key(ip, port, proto);
              Found(conns, cp) == Walk(old(conns), BucketOf(cfg, old(View()), k, isClient), k, isClient)
    {
      var k := Key(ip, port, proto);
      hide RangesValid, FreePorts, Clock.Valid, Linking;
      LinkingFacts(cfg, View());
      SameModes(cfg, View());
      var idx := cfg.hash(k) % cfg.size;
      var list := if isClient then client[idx] else self[idx];
      ghost var whole := Walk(conns, list, k, isClient);
      var j := 0;
      while j < |list|
        invariant 0 <= j <= |list| && SameMode(conns, old(conns))
        invariant forall id | id in list :: id in conns
        invariant whole == Walk(conns, list[j..], k, isClient)
      {
        var id := list[j];
        if SameAddress(conns[id], k, isClient) {
          conns := conns[id := conns[id].(proto := proto)];
          assert SameMode(conns, old(conns)) && View() == old(View()).(conns := conns);
          if proto != 0 { return Some(id); }
        }
        j := j + 1;
      }
      cp := None;
    }

    /** connection_add */
    method Add(id: nat, c: Conn)
      requires cfg.size > 0 && |client| == |self| == cfg.size
      modifies this`client, this`self
      ensures client == Linked(old(client), Bucket(cfg, c.ClientKey()), id)
      ensures self == if c.fullnat then Linked(old(self), Bucket(cfg, c.SelfKey()), id) else old(self)
    {
      var idx := Bucket(cfg, c.ClientKey());
      client := client[idx := [id] + client[idx]];
      if c.fullnat {
        idx := Bucket(cfg, c.SelfKey());
        self := self[idx := [id] + self[idx]];
      }
    }

    /** connection_del */
    method Remove(id: nat, c: Conn)
      modifies this`client, this`self
      ensures client == Unlinked(old(client), id)
      ensures self == if c.fullnat then Unlinked(old(self), id) else old(self)
    {
      client := Unlinked(client, id);
      if c.fullnat { self := Unlinked(self, id); }
    }

    /** lip_get_tcp_port and lip_get_udp_port */
    method TakePort(pool: Pool) returns (port: nat)
      requires RangesValid() && pool in ranges
      modifies rangeRepr
      ensures RangesValid()
      ensures PR.Get(old(FreePorts())[pool], 0).port == port
      ensures FreePorts() == old(FreePorts())[pool := PR.Get(old(FreePorts())[pool], 0).free]
    {
      hide PR.PortRange.Valid, PR.PortRange.Free, PR.Get;
      port := ranges[pool].GetPort(0);
    }

    /** lip_put_tcp_port and lip_put_udp_port */
    method GivePort(pool: Pool, port: nat)
      requires RangesValid() && pool in ranges && |FreePorts()[pool]| + 1 < ranges[pool].size
      modifies rangeRepr
      ensures RangesValid()
      ensures FreePorts() == old(FreePorts())[pool := PR.Put(old(FreePorts())[pool], port)]
    {
      hide PR.PortRange.Valid, PR.PortRange.Free, PR.Put;
      ranges[pool].PutPort(port);
    }

    /** The end of connection_create: the connection is entered into the tables, and its timer is started. */
    method Enlist(id: nat, c: Conn)
      requires Valid() && id !in conns
      modifies this`conns, this`client, this`self, clock
      ensures Valid() && View() == Enter(cfg, old(View()), id, c)
    {
      hide RangesValid, FreePorts, Linking, Clock.Valid, Linked, Bucket;
      LinkingFacts(cfg, View());
      EnterLinks(cfg, View(), id, c);
      ghost var s := View();
      conns := conns[id := c];
      Add(id, c);
      var _ := clock.Add(id, CONNECTION_TIMEOUT_SECONDS);
      assert View() == Enter(cfg, s, id, c);
    }

    /** connection_create for a packet with client key k */
    method Connect(k: Key, ch: Choice) returns (cp: Option<nat>)
      requires Valid()
      requires ch.lip.Some? ==> Pool(ch.lip.value, k.proto == PROTO_TCP) in FreePorts()
      requires ch.memory.Some? ==> ch.memory.value !in conns
      modifies this, clock, rangeRepr
      ensures Valid() && Created(View(), cp) == Create(cfg, old(View()), k, ch)
    {
      hide RangesValid, FreePorts, Linking, Clock.Valid, Enter;
      LinkingFacts(cfg, View());
      StillLinking(cfg, View());
      cp := None;
      if ch.memory.None? || !ch.server || !ch.route { return; }
      var c := Conn(k.ip, k.port, 0, 0, k.proto, ch.fullnat);
      if ch.fullnat {
        if ch.lip.None? { return; }
        var port := TakePort(Pool(ch.lip.value, k.proto == PROTO_TCP));
        if port == 0 { return; }
        c := c.(lip := ch.lip.value, selfPort := port);
      }
      Enlist(ch.memory.value, c);
      cp := ch.memory;
    }

    /** connection_free, also called by connection_timeout, when the range of the port has room for it. */
    method Disconnect(id: nat)
      requires Valid() && id in conns
      requires conns[id].fullnat ==>
                 var pool := conns[id].PortPool(); pool in ranges && |FreePorts()[pool]| + 1 < ranges[pool].size
      modifies this, clock, rangeRepr
      ensures Valid() && View() == Free(old(View()), id)
    {
      hide RangesValid, FreePorts, Linking, Clock.Valid, Unlinked, PR.Put;
      LinkingFacts(cfg, View());
      FreeLinks(cfg, View(), id);
      var c := conns[id];
      if c.fullnat {
        GivePort(c.PortPool(), c.selfPort);
      }
      clock.Del(id);
      Remove(id, c);
      conns := conns - {id};
    }
  }

  /** The entries of the buckets are live connections, once in each bucket, and these are the ones with a timer. */
  ghost predicate Linking(cfg: Config, s: State) {
    && ListsLive(cfg, s) && s.due.Keys == s.conns.Keys
    && (forall i | 0 <= i < cfg.size :: Distinct(s.client[i]) && Distinct(s.self[i]))
    && (forall i, id | 0 <= i < cfg.size && id in s.self[i] :: s.conns[id].fullnat)
  }

  lemma InvLinks(cfg: Config, initial: map<Pool, set<nat>>, s: State)
    requires Inv(cfg, initial, s)
    ensures Linking(cfg, s)
  {
    hide PortsKept, UniqueClients;
    InvListsLive(cfg, initial, s);
    forall i, id | 0 <= i < cfg.size && id in s.self[i] ensures s.conns[id].fullnat {
      assert Slotted(s.self, i, id);
    }
  }

  lemma LinkingFacts(cfg: Config, s: State)
    requires Linking(cfg, s)
    ensures ListsLive(cfg, s) && s.due.Keys == s.conns.Keys
    ensures cfg.size > 0 && cfg.total > 0 && |s.client| == |s.self| == cfg.size
  {
  }

  ghost predicate SameMode(conns: map<nat, Conn>, was: map<nat, Conn>) {
    conns.Keys == was.Keys && forall id | id in conns :: conns[id].fullnat == was[id].fullnat
  }

  lemma SameModes(cfg: Config, s: State)
    requires Linking(cfg, s)
    ensures forall conns {:trigger SameMode(conns, s.conns)} | SameMode(conns, s.conns) ::
              Linking(cfg, s.(conns := conns))
  {
  }

  lemma StillLinking(cfg: Config, s: State)
    requires Linking(cfg, s)
    ensures forall free :: Linking(cfg, s.(free := free))
  {
  }

  lemma EnterLinks(cfg: Config, s: State, id: nat, c: Conn)
    requires Linking(cfg, s) && id !in s.conns
    ensures cfg.size > 0 && cfg.total > 0 && |s.client| == |s.self| == cfg.size
    ensures Linking(cfg, Enter(cfg, s, id, c))
  {
    hide Bucket;
    var s' := Enter(cfg, s, id, c);
    assert forall i | 0 <= i < cfg.size :: id !in s.client[i] && id !in s.self[i];
  }

  lemma {:induction false} FreeLinks(cfg: Config, s: State, id: nat)
    requires Linking(cfg, s) && id in s.conns
    ensures Linking(cfg, Free(s, id))
  {
    hide Without, Bucket;
    forall i | 0 <= i < cfg.size
      ensures Distinct(Without(s.client[i], id)) && id !in Without(s.client[i], id)
      ensures forall x: nat {:trigger x in Without(s.client[i], id)} ::
                x in Without(s.client[i], id) ==> x in s.client[i]
      ensures Distinct(Without(s.self[i], id)) && id !in Without(s.self[i], id)
      ensures forall x: nat {:trigger x in Without(s.self[i], id)} :: x in Without(s.self[i], id) ==> x in s.self[i]
    {
      WithoutIs(s.client[i], id);
      WithoutIs(s.self[i], id);
    }
  }

  /** The port of a live connection has its range, and the range has room for it. */
  lemma HasRoom(cfg: Config, initial: map<Pool, set<nat>>, s: State, id: nat)
    requires Inv(cfg, initial, s) && id in s.conns && s.conns[id].fullnat
    ensures var pool := s.conns[id].PortPool();
            pool in s.free && pool in initial && |s.free[pool]| < |initial[pool]|
  {
    hide Indexed, TimersKept, UniqueClients;
    var pool, port := s.conns[id].PortPool(), s.conns[id].selfPort;
    assert port in Held(s.conns, pool);
    PR.RoomForHeld(initial[pool], PR.Ports(s.free[pool], Held(s.conns, pool)), |initial[pool]|, port);
  }
}
