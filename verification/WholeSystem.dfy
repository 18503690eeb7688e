/** Whole runs of n processes and their devices, from the state after init. */
module WholeSystem {
  import opened Common
  import opened Places
  import opened MainLoop
  import opened MainLoopProofs
  import LfQueue
  import NicRing

  /** A process takes a step, or the device finishes a descriptor it has been given. */
  datatype Event =
    | ProcessMoves(p: nat, ch: Choice)
    | RxDone(id: RingId, j: nat)
    | TxDone(id: RingId, j: nat)

  ghost predicate Enabled(c: Config, s: State, e: Event)
    requires PartsValid(s)
  {
    match e
    case ProcessMoves(p, ch) => p < c.n && Allowed(c, ch)
    case RxDone(id, j) => j < NicRing.Size(s.rx(id)) && s.rx(id).armed[j]
    case TxDone(id, j) => j < NicRing.Size(s.tx(id)) && s.tx(id).armed[j]
  }

  /** An event that is not possible in a state leaves it as it is. */
  ghost function Apply(c: Config, s: State, e: Event): State
    requires PartsValid(s) && Coherent(s)
  {
    if !Enabled(c, s, e) then s
    else
      match e
      case ProcessMoves(p, ch) => Step(c, s, p, ch)
      case RxDone(id, j) => s.(rx := Set(s.rx, id, NicRing.Finish(s.rx(id), j)))
      case TxDone(id, j) => s.(tx := Set(s.tx, id, NicRing.Finish(s.tx(id), j)))
  }

  lemma StepKeeps(c: Config, s: State, p: nat, ch: Choice)
    requires Inv(c, s) && p < c.n && Allowed(c, ch)
    ensures Inv(c, Step(c, s, p, ch))
  {
    hide Contents, Placed, PartsValid, AllLawful, Coherent, FindRouteStep, AllocRxStep, RecvRxStep, SpliceRxStep,
         FilterStep, DispatchStep, FlushStep, RecvQueueStep, ClassifyStep, ProcessStep, ReclaimTxStep, ReturnStep,
         PutStep, SendTxStep;
    match s.pc(p)
    case FindRoute => FindRouteKeeps(c, s, p, ch);
    case AllocRx(a, busy) => AllocRxKeeps(c, s, p, a, busy);
    case RecvRx(a, busy) => RecvRxKeeps(c, s, p, a, busy);
    case SpliceRx(a) => SpliceRxKeeps(c, s, p, a);
    case Filter(k) => FilterKeeps(c, s, p, k, ch);
    case DispatchTo(k, flush) => DispatchKeeps(c, s, p, k, flush, ch);
    case Flush(q, busy, from) => FlushKeeps(c, s, p, q, busy, from);
    case RecvQueue(q, busy) => RecvQueueKeeps(c, s, p, q, busy);
    case Classify(k) => ClassifyKeeps(c, s, p, k);
    case ProcessDriver => ProcessKeeps(c, s, p, ch);
    case ProcessDispatch => ProcessKeeps(c, s, p, ch);
    case ReclaimTx(a, busy) => ReclaimTxKeeps(c, s, p, a, busy);
    case Return(k, flush) => ReturnKeeps(c, s, p, k, flush);
    case PutFree => PutKeeps(c, s, p, ch);
    case PutReclaim => PutKeeps(c, s, p, ch);
    case SendTx(a, busy) => SendTxKeeps(c, s, p, a, busy);
    case Exited =>
  }

  lemma TidySame(c: Config, s: State, s': State)
    requires AllTidy(c, s) && s'.pc == s.pc && s'.lists == s.lists
    ensures AllTidy(c, s')
  {
    forall o: nat ensures Tidy(c, s', o) { assert Tidy(c, s, o); }
  }

  lemma DeviceKeeps(c: Config, s: State, e: Event)
    requires Inv(c, s) && Enabled(c, s, e) && !e.ProcessMoves?
    ensures Inv(c, Apply(c, s, e))
  {
    hide AllTidy, LfQueue.Valid, LfQueue.InRing, NicRing.Valid, NicRing.Window;
    var s' := Apply(c, s, e);
    TidySame(c, s, s');
    match e {
      case RxDone(id, j) => NicRing.FinishKeeps(s.rx(id), j);
      case TxDone(id, j) => NicRing.FinishKeeps(s.tx(id), j);
    }
    MoveNone(c, s, s');
    forall o: nat
      ensures Walked(c, s', o)
    {
      assert Walked(c, s, o);
    }
  }

  // ---------- the state after init ----------

  /** packet_module_init: the packets of zone p are p*zone .. (p+1)*zone, all free, all with id p. */
  function Owner(zone: nat): nat -> nat
    requires 0 < zone
  {
    (x: nat) => x / zone
  }

  function ConfigOf(n: nat, m: nat, zone: nat): Config
    requires 0 < zone
  {
    Config(n, m, n * zone, Owner(zone))
  }

  /** pool_add_packets */
  function ZonePackets(p: nat, zone: nat): (r: seq<nat>)
    ensures forall x :: x in r <==> p * zone <= x < (p + 1) * zone
    ensures Distinct(r)
  {
    var r := seq(zone, i requires 0 <= i < zone => p * zone + i);
    assert forall x :: p * zone <= x < (p + 1) * zone ==> x in r by {
      forall x | p * zone <= x < (p + 1) * zone
        ensures x in r
      {
        assert r[x - p * zone] == x;
      }
    }
    r
  }

  /** driver_module_init, lfq_module_init and packet_module_init in all processes. */
  function Init(n: nat, m: nat, zone: nat, ringSize: nat, queueMemory: seq<nat>): State
    requires 0 < zone
  {
    State(
      _ => FindRoute,
      (pl: Place) => if pl.Free? && pl.p < n then ZonePackets(pl.p, zone) else [],
      _ => NicRing.Create(ringSize),
      _ => NicRing.Create(ringSize),
      _ => LfQueue.Init(queueMemory),
      _ => End,
      _ => 0,
      (x: nat) => Free(x / zone))
  }

  lemma ZoneOf(x: nat, p: nat, zone: nat)
    requires 0 < zone
    ensures p * zone <= x < (p + 1) * zone <==> x / zone == p
  {
    var d, r := x / zone, x % zone;
    assert x == d * zone + r;
    if d < p {
      assert (d + 1) * zone <= p * zone;
    } else if d > p {
      assert (p + 1) * zone <= d * zone;
    }
  }

  lemma InitParts(n: nat, m: nat, zone: nat, ringSize: nat, queueMemory: seq<nat>)
    requires 0 < zone && 0 < ringSize && 0 < |queueMemory|
    ensures var s := Init(n, m, zone, ringSize, queueMemory);
            && PartsValid(s)
            && forall pl: Place :: Contents(s, pl) == if pl.Free? && pl.p < n then ZonePackets(pl.p, zone) else []
  {
    NicRing.CreateIsEmpty<nat>(ringSize);
    assert LfQueue.InRing(LfQueue.Init(queueMemory)) == [];
  }

  lemma InitAt(n: nat, m: nat, zone: nat, ringSize: nat, queueMemory: seq<nat>, pl: Place, x: nat)
    requires 0 < zone && 0 < ringSize && 0 < |queueMemory|
    ensures var c, s := ConfigOf(n, m, zone), Init(n, m, zone, ringSize, queueMemory);
            && PartsValid(s) && Distinct(Contents(s, pl))
            && (x in Contents(s, pl) <==> x < c.total && s.place(x) == pl)
  {
    hide PartsValid, Contents, NicRing.Create, LfQueue.Init;
    InitParts(n, m, zone, ringSize, queueMemory);
    InZones(x, n, zone);
    if pl.Free? { ZoneOf(x, pl.p, zone); }
  }

  lemma InitPlaced(n: nat, m: nat, zone: nat, ringSize: nat, queueMemory: seq<nat>)
    requires 0 < zone && 0 < ringSize && 0 < |queueMemory|
    ensures var c, s := ConfigOf(n, m, zone), Init(n, m, zone, ringSize, queueMemory);
            PartsValid(s) && Placed(c, s)
  {
    hide PartsValid, Init, ConfigOf;
    var c, s := ConfigOf(n, m, zone), Init(n, m, zone, ringSize, queueMemory);
    InitAt(n, m, zone, ringSize, queueMemory, Free(0), 0);
    forall pl: Place, x: nat {:trigger x in Contents(s, pl)}
      ensures x in Contents(s, pl) <==> x < c.total && s.place(x) == pl
    {
      InitAt(n, m, zone, ringSize, queueMemory, pl, x);
    }
    forall pl: Place ensures Distinct(Contents(s, pl)) { InitAt(n, m, zone, ringSize, queueMemory, pl, 0); }
  }

  lemma InitLawful(n: nat, m: nat, zone: nat, ringSize: nat, queueMemory: seq<nat>)
    requires 0 < zone
    ensures AllLawful(ConfigOf(n, m, zone), Init(n, m, zone, ringSize, queueMemory))
  {
    hide NicRing.Create, LfQueue.Init;
    forall x: nat | x < n * zone ensures x / zone < n { InZones(x, n, zone); }
  }

  lemma InitQuiet(n: nat, m: nat, zone: nat, ringSize: nat, queueMemory: seq<nat>)
    requires 0 < zone
    ensures Coherent(Init(n, m, zone, ringSize, queueMemory))
    ensures forall p: nat :: Walked(ConfigOf(n, m, zone), Init(n, m, zone, ringSize, queueMemory), p)
    ensures AllTidy(ConfigOf(n, m, zone), Init(n, m, zone, ringSize, queueMemory))
  {
  }

  lemma InitInv(n: nat, m: nat, zone: nat, ringSize: nat, queueMemory: seq<nat>)
    requires 0 < zone && 0 < ringSize && 0 < |queueMemory|
    ensures Inv(ConfigOf(n, m, zone), Init(n, m, zone, ringSize, queueMemory))
  {
    hide PartsValid, Placed, AllLawful, Coherent, Walked, AllTidy, Init, ConfigOf;
    InitPlaced(n, m, zone, ringSize, queueMemory);
    InitLawful(n, m, zone, ringSize, queueMemory);
    InitQuiet(n, m, zone, ringSize, queueMemory);
  }

  lemma InZones(x: nat, n: nat, zone: nat)
    requires 0 < zone
    ensures x < n * zone <==> x / zone < n
  {
    ZoneOf(x, x / zone, zone);
    if n <= x / zone {
      assert n * zone <= (x / zone) * zone;
    } else {
      assert (x / zone + 1) * zone <= n * zone;
    }
  }

  // ---------- the theorem ----------

  /** The state after a run. */
  ghost function Run(c: Config, s: State, events: seq<Event>): (s': State)
    requires Inv(c, s)
    ensures Inv(c, s')
    decreases |events|
  {
    if events == [] then s
    else
      var s0 := Run(c, s, events[..|events| - 1]);
      var e := events[|events| - 1];
      if Enabled(c, s0, e) then
        if e.ProcessMoves? then StepKeeps(c, s0, e.p, e.ch); Apply(c, s0, e)
        else DeviceKeeps(c, s0, e); Apply(c, s0, e)
      else Apply(c, s0, e)
  }

  /** In every reachable state of any interleaving of n processes and their devices: each packet is at
      exactly one position of exactly one container; packets in a process's own containers carry its id;
      packets between processes are DISPATCH, coming from their owner, or RECLAIM, going to their owner;
      and no exit(-1) has been taken anywhere.  At the head of its loop a process holds no packet of an earlier
      turn: they are all in its pools, rings and queues. */
  lemma NoPacketLostOrDuplicated(n: nat, m: nat, zone: nat, ringSize: nat, queueMemory: seq<nat>, events: seq<Event>)
    requires 0 < zone && 0 < ringSize && 0 < |queueMemory|
    ensures var c, s0 := ConfigOf(n, m, zone), Init(n, m, zone, ringSize, queueMemory);
            && Inv(c, s0)
            && var s := Run(c, s0, events);
            && (forall x: nat | x < n * zone :: AtExactlyOnePosition(s, x))
            && (forall pl: Place, x: nat | x in Contents(s, pl) :: x < n * zone && Lawful(c, pl, s.mark(x), x / zone))
            && (forall p: nat :: !s.pc(p).Exited?)
            && (forall l: Link :: !s.queue(l).prod.PExited? && !s.queue(l).cons.CExited?)
            && (forall p: nat | s.pc(p) == AllocRx(0, false) ::
                  && s.lists(FromDriver(p)) == s.lists(FromDispatch(p)) == []
                  && s.lists(FreeHead(p)) == s.lists(ToReclaim(p)) == []
                  && forall a: nat :: s.lists(RxPool(p, a)) == [])
  {
    hide AllTidy, LfQueue.Valid, LfQueue.InRing, NicRing.Valid, NicRing.Window, Init, Coherent;
    var c, s0 := ConfigOf(n, m, zone), Init(n, m, zone, ringSize, queueMemory);
    InitInv(n, m, zone, ringSize, queueMemory);
    var s := Run(c, s0, events);
    forall x: nat | x < n * zone
      ensures AtExactlyOnePosition(s, x)
    {
      ExactlyOnePosition(c, s, x);
    }
    forall pl: Place, x: nat | x in Contents(s, pl)
      ensures x < n * zone && Lawful(c, pl, s.mark(x), x / zone)
    {
      assert s.place(x) == pl;
    }
    forall p: nat
      ensures !s.pc(p).Exited?
    {
      assert Walked(c, s, p);
    }
    forall l: Link
      ensures !s.queue(l).prod.PExited? && !s.queue(l).cons.CExited?
    {
      LfQueue.IdleFacts(s.queue(l));
    }
    HeadTidy(c, s);
  }

  lemma HeadTidy(c: Config, s: State)
    requires AllTidy(c, s)
    ensures forall p: nat | s.pc(p) == AllocRx(0, false) ::
              && s.lists(FromDriver(p)) == s.lists(FromDispatch(p)) == []
              && s.lists(FreeHead(p)) == s.lists(ToReclaim(p)) == []
              && forall a: nat :: s.lists(RxPool(p, a)) == []
  {
    forall p: nat | s.pc(p) == AllocRx(0, false)
      ensures s.lists(FromDriver(p)) == s.lists(FromDispatch(p)) == []
      ensures s.lists(FreeHead(p)) == s.lists(ToReclaim(p)) == []
      ensures forall a: nat :: s.lists(RxPool(p, a)) == []
    {
      assert Tidy(c, s, p);
    }
  }
}
