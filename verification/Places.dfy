/** Where the packets of all processes are: the state shared by main.c, dispatch.c, driver.c, lf_queue.c
    and packet.c, and what moving packets between lists does to it. */
module Places {
  import opened Common
  import LfQueue
  import NicRing

  /** enum lfq_state, uspace/include/types/lf_queue.h */
  datatype Mark = Start | Dispatch | Reclaim | Xmit | End

  /** The containers a packet can be linked into.  `p` is the process that owns the container; a queue leads
      from process `p` to process `q`. */
  datatype Place =
    | Free(p: nat)               // zone->free_packet_pool
    | RxSlot(p: nat, a: nat)     // rx_ring->buffer[]
    | RxPool(p: nat, a: nat)     // rx_ring->pool
    | FromDriver(p: nat)         // main_loop's recv_from_driver
    | FreeHead(p: nat)           // main_loop's free_head
    | FromDispatch(p: nat)       // main_loop's recv_from_dispatch
    | ToReclaim(p: nat)          // main_loop's to_reclaim
    | TxPool(p: nat, a: nat)     // tx_ring->pool
    | TxSlot(p: nat, a: nat)     // tx_ring->buffer[]
    | Staged(p: nat, q: nat)     // queue->list
    | InQueue(p: nat, q: nat)    // queue->desc[]

  /** The main_loop of one process, one program point per loop or call.  `busy` says that the operation on
      the current ring or queue has begun; `k` is a position in the list being walked. */
  datatype PC =
    | FindRoute
    | AllocRx(a: nat, busy: bool)
    | RecvRx(a: nat, busy: bool)
    | SpliceRx(a: nat)
    | Filter(k: nat)
    | DispatchTo(k: nat, flush: bool)
    | Flush(q: nat, busy: bool, after: FlushFrom)
    | RecvQueue(q: nat, busy: bool)
    | Classify(k: nat)
    | ProcessDriver
    | ProcessDispatch
    | ReclaimTx(a: nat, busy: bool)
    | Return(k: nat, flush: bool)
    | PutFree
    | PutReclaim
    | SendTx(a: nat, busy: bool)
    | Exited

  /** Which call of lfq_send_flush this is. */
  datatype FlushFrom = DispatchPacket | DispatchReclaim | EndOfLoop

  datatype RingId = RingId(p: nat, a: nat)
  datatype Link = Link(p: nat, q: nat)

  /** n processes with m adapters each; packets 0..total with the process each was allotted to at start. */
  datatype Config = Config(n: nat, m: nat, total: nat, owner: nat -> nat)

  /** `place` is a history variable: the container each packet was last put into. */
  datatype State = State(
    pc: nat -> PC,
    lists: Place -> seq<nat>,
    rx: RingId -> NicRing.Ring<nat>,
    tx: RingId -> NicRing.Ring<nat>,
    queue: Link -> LfQueue.Queue<nat>,
    mark: nat -> Mark,
    adapter: nat -> nat,
    place: nat -> Place)

  function Set<K(==), V>(f: K -> V, k: K, v: V): K -> V {
    x => if x == k then v else f(x)
  }

  function SetAt<V>(f: nat -> V, k: nat, v: V): nat -> V {
    (x: nat) => if x == k then v else f(x)
  }

  ghost predicate PartsValid(s: State) {
    && (forall id: RingId :: NicRing.Valid(s.rx(id)))
    && (forall id: RingId :: NicRing.Valid(s.tx(id)))
    && (forall l: Link :: LfQueue.Valid(s.queue(l)))
  }

  /** The packets in a container, in order. */
  ghost function Contents(s: State, pl: Place): seq<nat>
    requires PartsValid(s)
  {
    match pl
    case RxSlot(p, a) => NicRing.Window(s.rx(RingId(p, a)))
    case TxSlot(p, a) => NicRing.Window(s.tx(RingId(p, a)))
    case Staged(p, q) => s.queue(Link(p, q)).staged
    case InQueue(p, q) => LfQueue.InRing(s.queue(Link(p, q)))
    case _ => s.lists(pl)
  }

  /** Every container holds, once each, exactly the packets whose place it is. */
  ghost predicate Placed(c: Config, s: State)
    requires PartsValid(s)
  {
    && (forall pl: Place :: Distinct(Contents(s, pl)))
    && (forall pl: Place, x: nat {:trigger x in Contents(s, pl)} ::
          x in Contents(s, pl) <==> x < c.total && s.place(x) == pl)
  }

  ghost predicate SameElsewhere(s: State, s': State, from: Place, to: Place)
    requires PartsValid(s) && PartsValid(s')
  {
    forall pl: Place | pl != from && pl != to :: Contents(s', pl) == Contents(s, pl)
  }

  /** Taking x out of one container and linking it into another keeps every packet in exactly one. */
  lemma MoveOne(c: Config, s: State, s': State, from: Place, a: seq<nat>, x: nat, b: seq<nat>,
                to: Place, d: seq<nat>, e: seq<nat>)
    requires PartsValid(s) && PartsValid(s') && Placed(c, s)
    requires from != to && SameElsewhere(s, s', from, to)
    requires Contents(s, from) == a + [x] + b && Contents(s', from) == a + b
    requires Contents(s, to) == d + e && Contents(s', to) == d + [x] + e
    requires forall y: nat :: s'.place(y) == if y == x then to else s.place(y)
    ensures Placed(c, s')
  {
    hide Distinct, PartsValid, Contents;
    assert (a + [x] + b)[|a|] == x;
    assert x in Contents(s, from);
    RemovingOne(a, x, b);
    assert x !in d + e by { assert s.place(x) == from; }
    InsertingOne(d, x, e);
    forall pl: Place
      ensures Distinct(Contents(s', pl))
    {
    }
    forall pl: Place, y: nat
      ensures y in Contents(s', pl) <==> y < c.total && s'.place(y) == pl
    {
      if pl == from {
        assert y in a + b <==> y in Contents(s, from) && y != x;
      } else if pl == to {
        assert y in d + [x] + e <==> y in Contents(s, to) || y == x;
      } else {
        assert y in Contents(s', pl) <==> y in Contents(s, pl);
      }
    }
  }

  lemma RemovingOne(a: seq<nat>, x: nat, b: seq<nat>)
    requires Distinct(a + [x] + b)
    ensures Distinct(a + b)
    ensures forall y :: y in a + b <==> y in a + [x] + b && y != x
  {
    var l := a + [x] + b;
    assert l[|a|] == x;
    forall i | 0 <= i < |a + b|
      ensures (a + b)[i] == l[if i < |a| then i else i + 1] != x
    {
    }
  }

  lemma InsertingOne(d: seq<nat>, x: nat, e: seq<nat>)
    requires Distinct(d + e) && x !in d + e
    ensures Distinct(d + [x] + e)
    ensures forall y :: y in d + [x] + e <==> y in d + e || y == x
  {
    var l := d + [x] + e;
    assert l[|d|] == x;
    forall i | 0 <= i < |d + e|
      ensures (d + e)[i] == l[if i < |d| then i else i + 1]
    {
    }
    forall i, j | 0 <= i < j < |l|
      ensures l[i] != l[j]
    {
      if i != |d| && j != |d| {
        assert l[i] == (d + e)[if i < |d| then i else i - 1];
        assert l[j] == (d + e)[if j < |d| then j else j - 1];
      } else if i == |d| {
        assert l[j] == (d + e)[j - 1];
      } else {
        assert l[i] == (d + e)[i];
      }
    }
  }

  lemma Joining(t: seq<nat>, l: seq<nat>)
    requires Distinct(t) && Distinct(l) && forall y | y in l :: y !in t
    ensures Distinct(t + l)
    ensures forall y :: y in t + l <==> y in t || y in l
  {
    forall i, j | 0 <= i < j < |t + l|
      ensures (t + l)[i] != (t + l)[j]
    {
      if i < |t| <= j {
        assert l[j - |t|] in l;
      }
    }
  }

  lemma DistinctEmpty()
    ensures Distinct<nat>([])
  {
  }

  /** Splicing a whole list onto the tail of another. */
  lemma MoveAll(c: Config, s: State, s': State, from: Place, to: Place)
    requires PartsValid(s) && PartsValid(s') && Placed(c, s)
    requires from != to && SameElsewhere(s, s', from, to)
    requires Contents(s', from) == [] && Contents(s', to) == Contents(s, to) + Contents(s, from)
    requires forall y: nat :: s'.place(y) == if y in Contents(s, from) then to else s.place(y)
    ensures Placed(c, s')
  {
    hide Distinct, PartsValid, Contents;
    var t, l := Contents(s, to), Contents(s, from);
    assert forall y | y in l :: y !in t by {
      forall y | y in l ensures y !in t { assert s.place(y) == from; }
    }
    Joining(t, l);
    DistinctEmpty();
    forall pl: Place
      ensures Distinct(Contents(s', pl))
    {
      if pl != from && pl != to { assert Contents(s', pl) == Contents(s, pl); }
    }
    forall pl: Place, y: nat
      ensures y in Contents(s', pl) <==> y < c.total && s'.place(y) == pl
    {
      if pl == from {
      } else if pl == to {
        assert y in Contents(s', pl) <==> y in t || y in l;
      } else {
        assert y in Contents(s', pl) <==> y in Contents(s, pl);
      }
    }
  }

  /** A step that moves no packet. */
  lemma MoveNone(c: Config, s: State, s': State)
    requires PartsValid(s) && PartsValid(s') && Placed(c, s)
    requires forall pl: Place :: Contents(s', pl) == Contents(s, pl)
    requires forall y: nat :: s'.place(y) == s.place(y)
    ensures Placed(c, s')
  {
  }

  /** x is at position i of container pl and nowhere else. */
  ghost predicate OnlyAt(s: State, x: nat, pl: Place, i: int)
    requires PartsValid(s)
  {
    && 0 <= i < |Contents(s, pl)| && Contents(s, pl)[i] == x
    && forall pl': Place, j | 0 <= j < |Contents(s, pl')| && Contents(s, pl')[j] == x :: pl' == pl && j == i
  }

  ghost predicate AtExactlyOnePosition(s: State, x: nat)
    requires PartsValid(s)
  {
    exists pl: Place, i :: OnlyAt(s, x, pl, i)
  }

  /** What Placed says without the history variable. */
  lemma ExactlyOnePosition(c: Config, s: State, x: nat)
    requires PartsValid(s) && Placed(c, s) && x < c.total
    ensures AtExactlyOnePosition(s, x)
  {
    var pl := s.place(x);
    assert x in Contents(s, pl);
    var i :| 0 <= i < |Contents(s, pl)| && Contents(s, pl)[i] == x;
    forall pl': Place, j | 0 <= j < |Contents(s, pl')| && Contents(s, pl')[j] == x
      ensures pl' == pl && j == i
    {
      assert x in Contents(s, pl');
      assert Distinct(Contents(s, pl));
    }
    assert OnlyAt(s, x, pl, i);
  }
}
