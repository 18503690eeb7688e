/** Every step of every process and of the device keeps the invariant of the whole system. */
module MainLoopProofs {
  import opened Common
  import opened Places
  import opened MainLoop
  import LfQueue
  import NicRing

  // ---------- moving packets between lists ----------

  predicate IsList(pl: Place) {
    !pl.RxSlot? && !pl.TxSlot? && !pl.Staged? && !pl.InQueue?
  }

  // What the parts of the invariant say at one place, for proofs that hide them.

  lemma InPlace(c: Config, s: State, pl: Place, x: nat)
    requires PartsValid(s) && Placed(c, s) && x in Contents(s, pl)
    ensures x < c.total && s.place(x) == pl
  {
  }

  lemma OnceThere(c: Config, s: State, pl: Place)
    requires PartsValid(s) && Placed(c, s)
    ensures Distinct(Contents(s, pl))
  {
  }

  lemma ScansOk(s: State, p: nat, a: nat)
    requires Coherent(s)
    ensures RxScanOk(s.pc(p), a, s.rx(RingId(p, a)).scan) && TxScanOk(s.pc(p), a, s.tx(RingId(p, a)).scan)
  {
  }

  lemma LinksOk(s: State, p: nat, q: nat)
    requires Coherent(s)
    ensures s.queue(Link(p, q)).prod.PIdle? <==> !Producing(s.pc(p), q)
    ensures s.queue(Link(q, p)).cons.CIdle? <==> s.pc(p) != RecvQueue(q, true)
  {
  }

  lemma RingsValid(s: State, p: nat, a: nat)
    requires PartsValid(s)
    ensures NicRing.Valid(s.rx(RingId(p, a))) && NicRing.Valid(s.tx(RingId(p, a)))
  {
  }

  lemma LinkValid(s: State, p: nat, q: nat)
    requires PartsValid(s)
    ensures LfQueue.Valid(s.queue(Link(p, q)))
  {
  }

  lemma PartsSame(s: State, s': State)
    requires PartsValid(s) && s'.rx == s.rx && s'.tx == s.tx && s'.queue == s.queue
    ensures PartsValid(s')
  {
  }

  lemma RxSet(s: State, s': State, id: RingId, r: NicRing.Ring<nat>)
    requires PartsValid(s) && NicRing.Valid(r) && s'.rx == Set(s.rx, id, r) && s'.tx == s.tx && s'.queue == s.queue
    ensures PartsValid(s')
  {
  }

  lemma TxSet(s: State, s': State, id: RingId, r: NicRing.Ring<nat>)
    requires PartsValid(s) && NicRing.Valid(r) && s'.tx == Set(s.tx, id, r) && s'.rx == s.rx && s'.queue == s.queue
    ensures PartsValid(s')
  {
  }

  lemma LinkSet(s: State, s': State, link: Link, l: LfQueue.Queue<nat>)
    requires PartsValid(s) && LfQueue.Valid(l) && s'.queue == Set(s.queue, link, l) && s'.rx == s.rx && s'.tx == s.tx
    ensures PartsValid(s')
  {
  }

  lemma LawfulAt(c: Config, s: State, x: nat)
    requires AllLawful(c, s) && x < c.total
    ensures c.owner(x) < c.n && Lawful(c, s.place(x), s.mark(x), c.owner(x))
  {
  }

  lemma LawfulMoved(c: Config, s: State, s': State, x: nat)
    requires AllLawful(c, s) && (x < c.total ==> Lawful(c, s'.place(x), s'.mark(x), c.owner(x)))
    requires forall y: nat | y != x :: s'.place(y) == s.place(y) && s'.mark(y) == s.mark(y)
    ensures AllLawful(c, s')
  {
    hide Lawful;
  }

  lemma Split(l: seq<nat>, k: nat)
    requires k < |l|
    ensures l == l[..k] + [l[k]] + l[k + 1..]
  {
  }

  /** The packet at the front of a list goes to the end of a ring or queue. */
  lemma Loaded(c: Config, s: State, s': State, from: Place, to: Place)
    requires PartsValid(s) && PartsValid(s') && Placed(c, s) && from != to && SameElsewhere(s, s', from, to)
    requires Contents(s, from) != [] && Contents(s', from) == Contents(s, from)[1..]
    requires Contents(s', to) == Contents(s, to) + [Contents(s, from)[0]]
    requires s'.place == SetAt(s.place, Contents(s, from)[0], to)
    ensures Placed(c, s')
  {
    hide PartsValid, Placed, Contents;
    var l, d := Contents(s, from), Contents(s, to);
    assert l == [] + [l[0]] + l[1..] && l[1..] == [] + l[1..];
    assert d == d + [] && d + [l[0]] == d + [l[0]] + [];
    MoveOne(c, s, s', from, [], l[0], l[1..], to, d, []);
  }

  /** The packet at the front of a list goes to the front of another. */
  lemma Fronted(c: Config, s: State, s': State, from: Place, to: Place)
    requires PartsValid(s) && PartsValid(s') && Placed(c, s) && from != to && SameElsewhere(s, s', from, to)
    requires Contents(s, from) != [] && Contents(s', from) == Contents(s, from)[1..]
    requires Contents(s', to) == [Contents(s, from)[0]] + Contents(s, to)
    requires s'.place == SetAt(s.place, Contents(s, from)[0], to)
    ensures Placed(c, s')
  {
    hide PartsValid, Placed, Contents;
    var l, d := Contents(s, from), Contents(s, to);
    assert l == [] + [l[0]] + l[1..] && l[1..] == [] + l[1..];
    assert d == [] + d && [l[0]] + d == [] + [l[0]] + d;
    MoveOne(c, s, s', from, [], l[0], l[1..], to, [], d);
  }

  lemma MoveTailPlaced(c: Config, s: State, from: Place, k: nat, to: Place)
    requires PartsValid(s) && Placed(c, s) && IsList(from) && IsList(to) && from != to && k < |s.lists(from)|
    ensures PartsValid(MoveTail(s, from, k, to)) && Placed(c, MoveTail(s, from, k, to))
    ensures s.lists(from)[k] < c.total && s.place(s.lists(from)[k]) == from
  {
    hide LfQueue.Valid, LfQueue.InRing, NicRing.Valid, NicRing.Window, Placed, AllLawful, Walked, Coherent;
    var l := s.lists(from);
    var s' := MoveTail(s, from, k, to);
    Split(l, k);
    assert l == Contents(s, from);
    InPlace(c, s, from, l[k]);
    assert Contents(s, to) == s.lists(to) + [];
    assert Contents(s', to) == s.lists(to) + [l[k]] + [];
    MoveOne(c, s, s', from, l[..k], l[k], l[k + 1..], to, s.lists(to), []);
  }

  lemma MoveFrontPlaced(c: Config, s: State, from: Place, to: Place)
    requires PartsValid(s) && Placed(c, s) && IsList(from) && IsList(to) && from != to && s.lists(from) != []
    ensures PartsValid(MoveFront(s, from, to)) && Placed(c, MoveFront(s, from, to))
    ensures s.lists(from)[0] < c.total && s.place(s.lists(from)[0]) == from
  {
    hide LfQueue.Valid, LfQueue.InRing, NicRing.Valid, NicRing.Window, Placed, AllLawful, Walked, Coherent;
    var s' := MoveFront(s, from, to);
    assert s.lists(from) == Contents(s, from);
    InPlace(c, s, from, s.lists(from)[0]);
    PartsSame(s, s');
    Fronted(c, s, s', from, to);
  }

  lemma StagePlaced(c: Config, s: State, from: Place, k: nat, mark: Mark, p: nat, q: nat)
    requires PartsValid(s) && Placed(c, s) && IsList(from) && k < |s.lists(from)|
    ensures PartsValid(Stage(s, from, k, mark, p, q)) && Placed(c, Stage(s, from, k, mark, p, q))
    ensures s.lists(from)[k] < c.total && s.place(s.lists(from)[k]) == from
  {
    hide LfQueue.Valid, LfQueue.InRing, NicRing.Valid, NicRing.Window, Placed, AllLawful, Walked, Coherent;
    var l := s.lists(from);
    var s' := Stage(s, from, k, mark, p, q);
    LfQueue.SendKeeps(s.queue(Link(p, q)), l[k]);
    Split(l, k);
    assert l == Contents(s, from);
    InPlace(c, s, from, l[k]);
    var d := s.queue(Link(p, q)).staged;
    assert Contents(s, Staged(p, q)) == d + [];
    assert Contents(s', Staged(p, q)) == d + [l[k]] + [];
    MoveOne(c, s, s', from, l[..k], l[k], l[k + 1..], Staged(p, q), d, []);
  }

  /** The walks of the other processes do not notice a step of process p that touches only its own lists
      and the marks of packets that are in none of theirs. */
  lemma OthersWalked(c: Config, s: State, s': State, p: nat)
    requires PartsValid(s) && Placed(c, s)
    requires forall o: nat | o != p :: Walked(c, s, o)
    requires forall o: nat | o != p ::
               && s'.pc(o) == s.pc(o)
               && s'.lists(FromDispatch(o)) == s.lists(FromDispatch(o))
               && s'.lists(ToReclaim(o)) == s.lists(ToReclaim(o))
    requires forall y: nat, o: nat | o != p && s.place(y) == FromDispatch(o) :: s'.mark(y) == s.mark(y)
    ensures forall o: nat | o != p :: Walked(c, s', o)
  {
    hide Placed;
    forall o: nat | o != p
      ensures Walked(c, s', o)
    {
      var l := s.lists(FromDispatch(o));
      forall i | 0 <= i < |l|
        ensures s'.mark(l[i]) == s.mark(l[i])
      {
        assert l == Contents(s, FromDispatch(o));
        InPlace(c, s, FromDispatch(o), l[i]);
      }
      assert Walked(c, s, o);
    }
  }

  lemma RxOldest(c: Config, s: State, p: nat, a: nat)
    requires PartsValid(s) && Placed(c, s)
    requires s.rx(RingId(p, a)).scan.Draining? && NicRing.CanDrain(s.rx(RingId(p, a)), false)
    ensures var r := s.rx(RingId(p, a)); r.scan.i < |r.buffer| && r.buffer[r.scan.i].Some?
    ensures var r := s.rx(RingId(p, a)); var x := r.buffer[r.scan.i].value;
            && NicRing.Valid(NicRing.Drain(r))
            && Contents(s, RxSlot(p, a)) == [] + [x] + NicRing.Window(NicRing.Drain(r))
            && x < c.total && s.place(x) == RxSlot(p, a)
  {
    hide LfQueue.Valid, LfQueue.InRing, NicRing.Valid, NicRing.Window, Placed, AllLawful, Walked, Coherent;
    var r := s.rx(RingId(p, a));
    NicRing.DrainKeeps(r, false);
    InPlace(c, s, RxSlot(p, a), r.buffer[r.scan.i].value);
  }

  lemma TxOldest(c: Config, s: State, p: nat, a: nat)
    requires PartsValid(s) && Placed(c, s)
    requires s.tx(RingId(p, a)).scan.Draining? && NicRing.CanDrain(s.tx(RingId(p, a)), true)
    ensures var r := s.tx(RingId(p, a)); r.scan.i < |r.buffer| && r.buffer[r.scan.i].Some?
    ensures var r := s.tx(RingId(p, a)); var x := r.buffer[r.scan.i].value;
            && NicRing.Valid(NicRing.Drain(r))
            && Contents(s, TxSlot(p, a)) == [] + [x] + NicRing.Window(NicRing.Drain(r))
            && x < c.total && s.place(x) == TxSlot(p, a)
  {
    hide LfQueue.Valid, LfQueue.InRing, NicRing.Valid, NicRing.Window, Placed, AllLawful, Walked, Coherent;
    var r := s.tx(RingId(p, a));
    NicRing.DrainKeeps(r, true);
    InPlace(c, s, TxSlot(p, a), r.buffer[r.scan.i].value);
  }

  lemma QueueOldest(c: Config, s: State, p: nat, q: nat)
    requires PartsValid(s) && Placed(c, s)
    ensures var l := s.queue(Link(q, p)); var got := LfQueue.Delivered(l); var l' := LfQueue.ConsumerStep(l);
            && LfQueue.Valid(l') && l'.staged == l.staged
            && Contents(s, InQueue(q, p)) == got + LfQueue.InRing(l')
            && (got != [] ==> got[0] < c.total && s.place(got[0]) == InQueue(q, p))
  {
    hide LfQueue.Valid, LfQueue.InRing, NicRing.Valid, NicRing.Window, Placed, AllLawful, Walked, Coherent;
    var l := s.queue(Link(q, p));
    LfQueue.ConsumerStepKeeps(l);
    if LfQueue.Delivered(l) != [] { InPlace(c, s, InQueue(q, p), LfQueue.Delivered(l)[0]); }
  }

  /** The operation that is in progress at a program point. */
  datatype Op = NoOp | OnRx(a: nat) | OnTx(a: nat) | Puts(q: nat) | Gets(q: nat)

  function OpOf(pc: PC): Op {
    match pc
    case AllocRx(a, busy) => if busy then OnRx(a) else NoOp
    case RecvRx(a, busy) => if busy then OnRx(a) else NoOp
    case ReclaimTx(a, busy) => if busy then OnTx(a) else NoOp
    case SendTx(a, busy) => if busy then OnTx(a) else NoOp
    case Flush(q, busy, _) => if busy then Puts(q) else NoOp
    case RecvQueue(q, busy) => if busy then Gets(q) else NoOp
    case _ => NoOp
  }

  predicate Only(s: State, s': State, p: nat, op: Op) {
    (OpOf(s.pc(p)) == NoOp || OpOf(s.pc(p)) == op) && (OpOf(s'.pc(p)) == NoOp || OpOf(s'.pc(p)) == op)
  }

  ghost predicate OthersStay(s: State, s': State, p: nat) {
    forall o: nat | o != p :: s'.pc(o) == s.pc(o)
  }

  lemma RxScansSame(s: State, s': State, p: nat)
    requires RxScans(s) && OthersStay(s, s', p) && s'.rx == s.rx
    requires !OpOf(s.pc(p)).OnRx? && !OpOf(s'.pc(p)).OnRx?
    ensures RxScans(s')
  {
    forall id: RingId ensures RxScanOk(s'.pc(id.p), id.a, s'.rx(id).scan) {
      assert RxScanOk(s.pc(id.p), id.a, s.rx(id).scan);
    }
  }

  lemma TxScansSame(s: State, s': State, p: nat)
    requires TxScans(s) && OthersStay(s, s', p) && s'.tx == s.tx
    requires !OpOf(s.pc(p)).OnTx? && !OpOf(s'.pc(p)).OnTx?
    ensures TxScans(s')
  {
    forall id: RingId ensures TxScanOk(s'.pc(id.p), id.a, s'.tx(id).scan) {
      assert TxScanOk(s.pc(id.p), id.a, s.tx(id).scan);
    }
  }

  lemma ProducersSame(s: State, s': State, p: nat)
    requires Producers(s) && OthersStay(s, s', p) && forall l: Link :: s'.queue(l).prod == s.queue(l).prod
    requires !OpOf(s.pc(p)).Puts? && !OpOf(s'.pc(p)).Puts?
    ensures Producers(s')
  {
    forall l: Link ensures s'.queue(l).prod.PIdle? <==> !Producing(s'.pc(l.p), l.q) {
      assert s.queue(l).prod.PIdle? <==> !Producing(s.pc(l.p), l.q);
    }
  }

  lemma ConsumersSame(s: State, s': State, p: nat)
    requires Consumers(s) && OthersStay(s, s', p) && forall l: Link :: s'.queue(l).cons == s.queue(l).cons
    requires !OpOf(s.pc(p)).Gets? && !OpOf(s'.pc(p)).Gets?
    ensures Consumers(s')
  {
    forall l: Link ensures s'.queue(l).cons.CIdle? <==> s'.pc(l.q) != RecvQueue(l.p, true) {
      assert s.queue(l).cons.CIdle? <==> s.pc(l.q) != RecvQueue(l.p, true);
    }
  }

  lemma QuietCoherent(s: State, s': State, p: nat)
    requires Coherent(s) && Only(s, s', p, NoOp) && OthersStay(s, s', p)
    requires s'.rx == s.rx && s'.tx == s.tx && s'.queue == s.queue
    ensures Coherent(s')
  {
    hide RxScans, TxScans, Producers, Consumers, OthersStay, OpOf;
    RxScansSame(s, s', p);
    TxScansSame(s, s', p);
    ProducersSame(s, s', p);
    ConsumersSame(s, s', p);
  }

  lemma StageCoherent(s: State, s': State, p: nat, link: Link, x: nat)
    requires Coherent(s) && Only(s, s', p, NoOp) && OthersStay(s, s', p)
    requires s'.rx == s.rx && s'.tx == s.tx && s'.queue == Set(s.queue, link, LfQueue.Send(s.queue(link), x))
    ensures Coherent(s')
  {
    hide RxScans, TxScans, Producers, Consumers, OthersStay, OpOf;
    RxScansSame(s, s', p);
    TxScansSame(s, s', p);
    ProducersSame(s, s', p);
    ConsumersSame(s, s', p);
  }

  lemma RxCoherent(s: State, s': State, p: nat, a: nat)
    requires Coherent(s) && Only(s, s', p, OnRx(a)) && OthersStay(s, s', p)
    requires RxScanOk(s'.pc(p), a, s'.rx(RingId(p, a)).scan)
    requires forall id: RingId | id != RingId(p, a) :: s'.rx(id) == s.rx(id)
    requires s'.tx == s.tx && s'.queue == s.queue
    ensures Coherent(s')
  {
    hide TxScans, Producers, Consumers;
    TxScansSame(s, s', p);
    ProducersSame(s, s', p);
    ConsumersSame(s, s', p);
    forall id: RingId ensures RxScanOk(s'.pc(id.p), id.a, s'.rx(id).scan) {
      assert RxScanOk(s.pc(id.p), id.a, s.rx(id).scan);
    }
  }

  lemma TxCoherent(s: State, s': State, p: nat, a: nat)
    requires Coherent(s) && Only(s, s', p, OnTx(a)) && OthersStay(s, s', p)
    requires TxScanOk(s'.pc(p), a, s'.tx(RingId(p, a)).scan)
    requires forall id: RingId | id != RingId(p, a) :: s'.tx(id) == s.tx(id)
    requires s'.rx == s.rx && s'.queue == s.queue
    ensures Coherent(s')
  {
    hide RxScans, Producers, Consumers;
    RxScansSame(s, s', p);
    ProducersSame(s, s', p);
    ConsumersSame(s, s', p);
    forall id: RingId ensures TxScanOk(s'.pc(id.p), id.a, s'.tx(id).scan) {
      assert TxScanOk(s.pc(id.p), id.a, s.tx(id).scan);
    }
  }

  lemma PutCoherent(s: State, s': State, p: nat, q: nat)
    requires Coherent(s) && Only(s, s', p, Puts(q)) && OthersStay(s, s', p)
    requires s'.queue(Link(p, q)).prod.PIdle? <==> !Producing(s'.pc(p), q)
    requires s'.queue(Link(p, q)).cons == s.queue(Link(p, q)).cons
    requires forall l: Link | l != Link(p, q) :: s'.queue(l) == s.queue(l)
    requires s'.rx == s.rx && s'.tx == s.tx
    ensures Coherent(s')
  {
    hide RxScans, TxScans, Consumers;
    RxScansSame(s, s', p);
    TxScansSame(s, s', p);
    ConsumersSame(s, s', p);
    forall l: Link ensures s'.queue(l).prod.PIdle? <==> !Producing(s'.pc(l.p), l.q) {
      assert s.queue(l).prod.PIdle? <==> !Producing(s.pc(l.p), l.q);
    }
  }

  lemma GetCoherent(s: State, s': State, p: nat, q: nat)
    requires Coherent(s) && Only(s, s', p, Gets(q)) && OthersStay(s, s', p)
    requires s'.queue(Link(q, p)).cons.CIdle? <==> s'.pc(p) != RecvQueue(q, true)
    requires s'.queue(Link(q, p)).prod == s.queue(Link(q, p)).prod
    requires forall l: Link | l != Link(q, p) :: s'.queue(l) == s.queue(l)
    requires s'.rx == s.rx && s'.tx == s.tx
    ensures Coherent(s')
  {
    hide RxScans, TxScans, Producers;
    RxScansSame(s, s', p);
    TxScansSame(s, s', p);
    ProducersSame(s, s', p);
    forall l: Link ensures s'.queue(l).cons.CIdle? <==> s'.pc(l.q) != RecvQueue(l.p, true) {
      assert s.queue(l).cons.CIdle? <==> s.pc(l.q) != RecvQueue(l.p, true);
    }
  }

  // ---------- the lists of a turn ----------

  /** A step of process p leaves the lists of the others alone. */
  lemma OthersTidy(c: Config, s: State, s': State, p: nat)
    requires AllTidy(c, s) && OthersStay(s, s', p) && Tidy(c, s', p)
    requires forall pl: Place | pl.p != p :: s'.lists(pl) == s.lists(pl)
    ensures AllTidy(c, s')
  {
    hide MayHold;
    forall o: nat | o != p ensures Tidy(c, s', o) {
      assert Tidy(c, s, o);
    }
  }

  lemma FindRouteTidy(c: Config, s: State, p: nat, ch: Choice)
    requires PartsValid(s) && Coherent(s) && AllTidy(c, s) && Walked(c, s, p) && s.pc(p) == FindRoute
    ensures AllTidy(c, FindRouteStep(s, p, ch))
  {
    hide NicRing.Valid, LfQueue.Valid, Coherent, PartsValid;
    assert Tidy(c, s, p);
    OthersTidy(c, s, FindRouteStep(s, p, ch), p);
  }

  lemma AllocRxTidy(c: Config, s: State, p: nat, a: nat, busy: bool)
    requires PartsValid(s) && Coherent(s) && AllTidy(c, s) && Walked(c, s, p) && s.pc(p) == AllocRx(a, busy)
    ensures AllTidy(c, AllocRxStep(c, s, p, a, busy))
  {
    hide NicRing.Valid, LfQueue.Valid, Coherent, PartsValid;
    assert Tidy(c, s, p);
    OthersTidy(c, s, AllocRxStep(c, s, p, a, busy), p);
  }

  lemma RecvRxTidy(c: Config, s: State, p: nat, a: nat, busy: bool)
    requires PartsValid(s) && Coherent(s) && AllTidy(c, s) && Walked(c, s, p) && s.pc(p) == RecvRx(a, busy)
    ensures AllTidy(c, RecvRxStep(c, s, p, a, busy))
  {
    hide NicRing.Valid, LfQueue.Valid, Coherent, PartsValid;
    assert Tidy(c, s, p);
    OthersTidy(c, s, RecvRxStep(c, s, p, a, busy), p);
  }

  lemma SpliceRxTidy(c: Config, s: State, p: nat, a: nat)
    requires PartsValid(s) && Coherent(s) && AllTidy(c, s) && Walked(c, s, p) && s.pc(p) == SpliceRx(a)
    ensures AllTidy(c, SpliceRxStep(c, s, p, a))
  {
    hide NicRing.Valid, LfQueue.Valid, Coherent, PartsValid;
    assert Tidy(c, s, p);
    OthersTidy(c, s, SpliceRxStep(c, s, p, a), p);
  }

  lemma FilterTidy(c: Config, s: State, p: nat, k: nat, ch: Choice)
    requires PartsValid(s) && Coherent(s) && AllTidy(c, s) && Walked(c, s, p) && s.pc(p) == Filter(k)
    ensures AllTidy(c, FilterStep(s, p, k, ch))
  {
    hide NicRing.Valid, LfQueue.Valid, Coherent, PartsValid;
    assert Tidy(c, s, p);
    OthersTidy(c, s, FilterStep(s, p, k, ch), p);
  }

  lemma DispatchTidy(c: Config, s: State, p: nat, k: nat, flush: bool, ch: Choice)
    requires PartsValid(s) && Coherent(s) && AllTidy(c, s) && Walked(c, s, p) && s.pc(p) == DispatchTo(k, flush)
    ensures AllTidy(c, DispatchStep(s, p, k, flush, ch))
  {
    hide NicRing.Valid, LfQueue.Valid, Coherent, PartsValid;
    assert Tidy(c, s, p);
    OthersTidy(c, s, DispatchStep(s, p, k, flush, ch), p);
  }

  lemma FlushTidy(c: Config, s: State, p: nat, q: nat, busy: bool, from: FlushFrom)
    requires PartsValid(s) && Coherent(s) && AllTidy(c, s) && Walked(c, s, p) && s.pc(p) == Flush(q, busy, from)
    ensures AllTidy(c, FlushStep(c, s, p, q, busy, from))
  {
    hide NicRing.Valid, LfQueue.Valid, Coherent, PartsValid;
    assert Tidy(c, s, p);
    OthersTidy(c, s, FlushStep(c, s, p, q, busy, from), p);
  }

  lemma RecvQueueTidy(c: Config, s: State, p: nat, q: nat, busy: bool)
    requires PartsValid(s) && Coherent(s) && AllTidy(c, s) && Walked(c, s, p) && s.pc(p) == RecvQueue(q, busy)
    ensures AllTidy(c, RecvQueueStep(c, s, p, q, busy))
  {
    hide NicRing.Valid, LfQueue.Valid, Coherent, PartsValid;
    assert Tidy(c, s, p);
    OthersTidy(c, s, RecvQueueStep(c, s, p, q, busy), p);
  }

  lemma ClassifyTidy(c: Config, s: State, p: nat, k: nat)
    requires PartsValid(s) && Coherent(s) && AllTidy(c, s) && Walked(c, s, p) && s.pc(p) == Classify(k)
    ensures AllTidy(c, ClassifyStep(s, p, k))
  {
    hide NicRing.Valid, LfQueue.Valid, Coherent, PartsValid;
    assert Tidy(c, s, p);
    OthersTidy(c, s, ClassifyStep(s, p, k), p);
  }

  lemma ReclaimTxTidy(c: Config, s: State, p: nat, a: nat, busy: bool)
    requires PartsValid(s) && Coherent(s) && AllTidy(c, s) && Walked(c, s, p) && s.pc(p) == ReclaimTx(a, busy)
    ensures AllTidy(c, ReclaimTxStep(c, s, p, a, busy))
  {
    hide NicRing.Valid, LfQueue.Valid, Coherent, PartsValid;
    assert Tidy(c, s, p);
    OthersTidy(c, s, ReclaimTxStep(c, s, p, a, busy), p);
  }

  lemma ReturnTidy(c: Config, s: State, p: nat, k: nat, flush: bool)
    requires PartsValid(s) && Coherent(s) && AllTidy(c, s) && Walked(c, s, p) && s.pc(p) == Return(k, flush)
    ensures AllTidy(c, ReturnStep(c, s, p, k, flush))
  {
    hide NicRing.Valid, LfQueue.Valid, Coherent, PartsValid;
    assert Tidy(c, s, p);
    OthersTidy(c, s, ReturnStep(c, s, p, k, flush), p);
  }

  lemma SendTxTidy(c: Config, s: State, p: nat, a: nat, busy: bool)
    requires PartsValid(s) && Coherent(s) && AllTidy(c, s) && Walked(c, s, p) && s.pc(p) == SendTx(a, busy)
    ensures AllTidy(c, SendTxStep(c, s, p, a, busy))
  {
    hide NicRing.Valid, LfQueue.Valid, Coherent, PartsValid;
    assert Tidy(c, s, p);
    OthersTidy(c, s, SendTxStep(c, s, p, a, busy), p);
  }

  lemma ProcessTidy(c: Config, s: State, p: nat, from: Place, back: Place, next: PC, ch: Choice)
    requires AllTidy(c, s) && Processes(s, p, from, back, next)
    ensures AllTidy(c, ProcessStep(s, p, from, back, next, ch))
  {
    assert Tidy(c, s, p);
    OthersTidy(c, s, ProcessStep(s, p, from, back, next, ch), p);
  }

  lemma PutTidy(c: Config, s: State, p: nat, from: Place, next: PC)
    requires AllTidy(c, s)
    requires if s.pc(p) == PutFree then from == FreeHead(p) && next == PutReclaim
             else s.pc(p) == PutReclaim && from == ToReclaim(p) && next == SendTx(0, false)
    ensures AllTidy(c, PutStep(s, p, from, next))
  {
    assert Tidy(c, s, p);
    OthersTidy(c, s, PutStep(s, p, from, next), p);
  }

  // ---------- the steps ----------

  // For each program point, one lemma about where the packets are and one about the rest.

  lemma FindRoutePlaced(c: Config, s: State, p: nat, ch: Choice)
    requires Inv(c, s) && p < c.n && Allowed(c, ch) && s.pc(p) == FindRoute
    ensures PartsValid(FindRouteStep(s, p, ch)) && Placed(c, FindRouteStep(s, p, ch))
  {
    hide LfQueue.Valid, LfQueue.InRing, NicRing.Valid, NicRing.Window, Placed, AllLawful, Walked, Coherent;
    var s' := FindRouteStep(s, p, ch);
    var l := s.lists(Free(p));
    if ch.yes && l != [] {
      MoveTailPlaced(c, s, Free(p), 0, TxPool(p, ch.adapter));
      MoveNone(c, MoveTail(s, Free(p), 0, TxPool(p, ch.adapter)), s');
    } else {
      MoveNone(c, s, s');
    }
  }

  lemma FindRouteKeeps(c: Config, s: State, p: nat, ch: Choice)
    requires Inv(c, s) && p < c.n && Allowed(c, ch) && s.pc(p) == FindRoute
    ensures Inv(c, FindRouteStep(s, p, ch))
  {
    hide AllTidy, LfQueue.Valid, LfQueue.InRing, NicRing.Valid, NicRing.Window, Contents, Placed, Coherent, PartsValid;
    var s' := FindRouteStep(s, p, ch);
    FindRoutePlaced(c, s, p, ch);
    assert Walked(c, s, p);
    FindRouteTidy(c, s, p, ch);
    QuietCoherent(s, s', p);
    OthersWalked(c, s, s', p);
  }

  lemma AllocRxPlaced(c: Config, s: State, p: nat, a: nat, busy: bool)
    requires Inv(c, s) && p < c.n && s.pc(p) == AllocRx(a, busy)
    ensures PartsValid(AllocRxStep(c, s, p, a, busy)) && Placed(c, AllocRxStep(c, s, p, a, busy))
    ensures s.lists(Free(p)) != [] ==> s.lists(Free(p))[0] < c.total && s.place(s.lists(Free(p))[0]) == Free(p)
  {
    hide LfQueue.Valid, LfQueue.InRing, NicRing.Valid, NicRing.Window, Placed, AllLawful, Walked, Coherent,
         NicRing.Fill, NicRing.FillBegin, NicRing.FillEnd, NicRing.HasRoom;
    var s' := AllocRxStep(c, s, p, a, busy);
    var r := s.rx(RingId(p, a));
    ScansOk(s, p, a);
    RingsValid(s, p, a);
    var l := s.lists(Free(p));
    assert l == Contents(s, Free(p));
    if l != [] { InPlace(c, s, Free(p), l[0]); }
    if a < c.m && busy && NicRing.HasRoom(r) && l != [] {
      NicRing.FillKeeps(r, l[0]);
      RxSet(s, s', RingId(p, a), NicRing.Fill(r, l[0]));
      Loaded(c, s, s', Free(p), RxSlot(p, a));
    } else {
      if a < c.m {
        if busy { NicRing.FillEndKeeps(r); } else { NicRing.BeginKeeps(r); }
      }
      MoveNone(c, s, s');
    }
  }

  lemma AllocRxCoherent(c: Config, s: State, p: nat, a: nat, busy: bool)
    requires Inv(c, s) && p < c.n && s.pc(p) == AllocRx(a, busy)
    ensures Coherent(AllocRxStep(c, s, p, a, busy))
  {
    hide LfQueue.Valid, LfQueue.InRing, NicRing.Valid, NicRing.Window, Contents, Placed, AllLawful, PartsValid,
         Coherent;
    assert Walked(c, s, p);
    ScansOk(s, p, a);
    RxCoherent(s, AllocRxStep(c, s, p, a, busy), p, a);
  }

  lemma AllocRxKeeps(c: Config, s: State, p: nat, a: nat, busy: bool)
    requires Inv(c, s) && p < c.n && s.pc(p) == AllocRx(a, busy)
    ensures Inv(c, AllocRxStep(c, s, p, a, busy))
  {
    hide AllTidy, LfQueue.Valid, LfQueue.InRing, NicRing.Valid, NicRing.Window, Contents, Placed, Coherent, PartsValid;
    var s' := AllocRxStep(c, s, p, a, busy);
    AllocRxPlaced(c, s, p, a, busy);
    assert Walked(c, s, p);
    AllocRxTidy(c, s, p, a, busy);
    AllocRxCoherent(c, s, p, a, busy);
    OthersWalked(c, s, s', p);
  }

  lemma RecvRxPlaced(c: Config, s: State, p: nat, a: nat, busy: bool)
    requires Inv(c, s) && p < c.n && s.pc(p) == RecvRx(a, busy)
    ensures PartsValid(RecvRxStep(c, s, p, a, busy)) && Placed(c, RecvRxStep(c, s, p, a, busy))
  {
    hide LfQueue.Valid, LfQueue.InRing, NicRing.Valid, NicRing.Window, Placed, AllLawful, Walked, Coherent;
    var s' := RecvRxStep(c, s, p, a, busy);
    var r := s.rx(RingId(p, a));
    ScansOk(s, p, a);
    if a < c.m && busy && NicRing.CanDrain(r, false) {
      RxOldest(c, s, p, a);
      var x := r.buffer[r.scan.i].value;
      var rest := NicRing.Window(NicRing.Drain(r));
      assert rest == [] + rest;
      var l := s.lists(RxPool(p, a));
      assert Contents(s, RxPool(p, a)) == l + [];
      assert Contents(s', RxPool(p, a)) == l + [x] + [];
      MoveOne(c, s, s', RxSlot(p, a), [], x, rest, RxPool(p, a), l, []);
    } else {
      if a < c.m {
        if busy { NicRing.DrainEndKeeps(r); } else { NicRing.BeginKeeps(r); }
      }
      MoveNone(c, s, s');
    }
  }

  lemma RecvRxCoherent(c: Config, s: State, p: nat, a: nat, busy: bool)
    requires Inv(c, s) && p < c.n && s.pc(p) == RecvRx(a, busy)
    ensures Coherent(RecvRxStep(c, s, p, a, busy))
  {
    hide LfQueue.Valid, LfQueue.InRing, NicRing.Valid, NicRing.Window, Contents, Placed, AllLawful, PartsValid,
         Coherent;
    assert Walked(c, s, p);
    ScansOk(s, p, a);
    RingsValid(s, p, a);
    if s.rx(RingId(p, a)).scan.Draining? && NicRing.CanDrain(s.rx(RingId(p, a)), false) { RxOldest(c, s, p, a); }
    RxCoherent(s, RecvRxStep(c, s, p, a, busy), p, a);
  }

  lemma RecvRxKeeps(c: Config, s: State, p: nat, a: nat, busy: bool)
    requires Inv(c, s) && p < c.n && s.pc(p) == RecvRx(a, busy)
    ensures Inv(c, RecvRxStep(c, s, p, a, busy))
  {
    hide AllTidy, LfQueue.Valid, LfQueue.InRing, NicRing.Valid, NicRing.Window, Contents, Placed, Coherent, PartsValid;
    var s' := RecvRxStep(c, s, p, a, busy);
    RecvRxPlaced(c, s, p, a, busy);
    assert Walked(c, s, p);
    RecvRxTidy(c, s, p, a, busy);
    RecvRxCoherent(c, s, p, a, busy);
    ScansOk(s, p, a);
    RingsValid(s, p, a);
    if s.rx(RingId(p, a)).scan.Draining? && NicRing.CanDrain(s.rx(RingId(p, a)), false) { RxOldest(c, s, p, a); }
    OthersWalked(c, s, s', p);
  }

  lemma ReclaimTxPlaced(c: Config, s: State, p: nat, a: nat, busy: bool)
    requires Inv(c, s) && p < c.n && s.pc(p) == ReclaimTx(a, busy)
    ensures PartsValid(ReclaimTxStep(c, s, p, a, busy)) && Placed(c, ReclaimTxStep(c, s, p, a, busy))
  {
    hide LfQueue.Valid, LfQueue.InRing, NicRing.Valid, NicRing.Window, Placed, AllLawful, Walked, Coherent;
    var s' := ReclaimTxStep(c, s, p, a, busy);
    var r := s.tx(RingId(p, a));
    ScansOk(s, p, a);
    if a < c.m && busy && NicRing.CanDrain(r, true) {
      TxOldest(c, s, p, a);
      var x := r.buffer[r.scan.i].value;
      var rest := NicRing.Window(NicRing.Drain(r));
      assert rest == [] + rest;
      var l := s.lists(ToReclaim(p));
      assert Contents(s, ToReclaim(p)) == l + [];
      assert Contents(s', ToReclaim(p)) == l + [x] + [];
      MoveOne(c, s, s', TxSlot(p, a), [], x, rest, ToReclaim(p), l, []);
    } else {
      if a < c.m {
        if busy { NicRing.DrainEndKeeps(r); } else { NicRing.BeginKeeps(r); }
      }
      MoveNone(c, s, s');
    }
  }

  lemma ReclaimTxCoherent(c: Config, s: State, p: nat, a: nat, busy: bool)
    requires Inv(c, s) && p < c.n && s.pc(p) == ReclaimTx(a, busy)
    ensures Coherent(ReclaimTxStep(c, s, p, a, busy))
  {
    hide LfQueue.Valid, LfQueue.InRing, NicRing.Valid, NicRing.Window, Contents, Placed, AllLawful, PartsValid,
         Coherent;
    assert Walked(c, s, p);
    ScansOk(s, p, a);
    RingsValid(s, p, a);
    if s.tx(RingId(p, a)).scan.Draining? && NicRing.CanDrain(s.tx(RingId(p, a)), true) { TxOldest(c, s, p, a); }
    TxCoherent(s, ReclaimTxStep(c, s, p, a, busy), p, a);
  }

  lemma ReclaimTxKeeps(c: Config, s: State, p: nat, a: nat, busy: bool)
    requires Inv(c, s) && p < c.n && s.pc(p) == ReclaimTx(a, busy)
    ensures Inv(c, ReclaimTxStep(c, s, p, a, busy))
  {
    hide AllTidy, LfQueue.Valid, LfQueue.InRing, NicRing.Valid, NicRing.Window, Contents, Placed, Coherent, PartsValid;
    var s' := ReclaimTxStep(c, s, p, a, busy);
    ReclaimTxPlaced(c, s, p, a, busy);
    assert Walked(c, s, p);
    ReclaimTxTidy(c, s, p, a, busy);
    ReclaimTxCoherent(c, s, p, a, busy);
    ScansOk(s, p, a);
    RingsValid(s, p, a);
    if s.tx(RingId(p, a)).scan.Draining? && NicRing.CanDrain(s.tx(RingId(p, a)), true) { TxOldest(c, s, p, a); }
    OthersWalked(c, s, s', p);
  }

  lemma SpliceRxPlaced(c: Config, s: State, p: nat, a: nat)
    requires Inv(c, s) && p < c.n && s.pc(p) == SpliceRx(a)
    ensures PartsValid(SpliceRxStep(c, s, p, a)) && Placed(c, SpliceRxStep(c, s, p, a))
    ensures forall x: nat :: x in s.lists(RxPool(p, a)) <==> x < c.total && s.place(x) == RxPool(p, a)
  {
    hide LfQueue.Valid, LfQueue.InRing, NicRing.Valid, NicRing.Window;
    var s' := SpliceRxStep(c, s, p, a);
    if a < c.m {
      assert Contents(s, RxPool(p, a)) == s.lists(RxPool(p, a));
      MoveAll(c, s, s', RxPool(p, a), FromDriver(p));
    } else {
      MoveNone(c, s, s');
    }
    forall x: nat
      ensures x in s.lists(RxPool(p, a)) <==> x < c.total && s.place(x) == RxPool(p, a)
    {
      assert x in Contents(s, RxPool(p, a)) <==> x < c.total && s.place(x) == RxPool(p, a);
    }
  }

  lemma SpliceRxKeeps(c: Config, s: State, p: nat, a: nat)
    requires Inv(c, s) && p < c.n && s.pc(p) == SpliceRx(a)
    ensures Inv(c, SpliceRxStep(c, s, p, a))
  {
    hide AllTidy, LfQueue.Valid, LfQueue.InRing, NicRing.Valid, NicRing.Window, Contents, Placed, Coherent, PartsValid;
    var s' := SpliceRxStep(c, s, p, a);
    SpliceRxPlaced(c, s, p, a);
    assert Walked(c, s, p);
    SpliceRxTidy(c, s, p, a);
    QuietCoherent(s, s', p);
    OthersWalked(c, s, s', p);
  }

  lemma FilterPlaced(c: Config, s: State, p: nat, k: nat, ch: Choice)
    requires Inv(c, s) && p < c.n && s.pc(p) == Filter(k)
    ensures PartsValid(FilterStep(s, p, k, ch)) && Placed(c, FilterStep(s, p, k, ch))
    ensures k < |s.lists(FromDriver(p))| ==>
              s.lists(FromDriver(p))[k] < c.total && s.place(s.lists(FromDriver(p))[k]) == FromDriver(p)
  {
    hide LfQueue.Valid, LfQueue.InRing, NicRing.Valid, NicRing.Window, Placed, AllLawful, Walked, Coherent;
    var s' := FilterStep(s, p, k, ch);
    var l := s.lists(FromDriver(p));
    if k < |l| {
      var s1 := s.(mark := SetAt(s.mark, l[k], Start));
      MoveNone(c, s, s1);
      InPlace(c, s, FromDriver(p), l[k]);
      if ch.yes { MoveNone(c, s1, s'); } else { MoveTailPlaced(c, s1, FromDriver(p), k, FreeHead(p)); }
    } else {
      MoveNone(c, s, s');
    }
  }

  lemma FilterKeeps(c: Config, s: State, p: nat, k: nat, ch: Choice)
    requires Inv(c, s) && p < c.n && s.pc(p) == Filter(k)
    ensures Inv(c, FilterStep(s, p, k, ch))
  {
    hide AllTidy, LfQueue.Valid, LfQueue.InRing, NicRing.Valid, NicRing.Window, Contents, Placed, Coherent, PartsValid;
    var s' := FilterStep(s, p, k, ch);
    FilterPlaced(c, s, p, k, ch);
    assert Walked(c, s, p);
    FilterTidy(c, s, p, k, ch);
    QuietCoherent(s, s', p);
    OthersWalked(c, s, s', p);
  }

  lemma DispatchPlaced(c: Config, s: State, p: nat, k: nat, flush: bool, ch: Choice)
    requires Inv(c, s) && p < c.n && Allowed(c, ch) && s.pc(p) == DispatchTo(k, flush)
    ensures PartsValid(DispatchStep(s, p, k, flush, ch)) && Placed(c, DispatchStep(s, p, k, flush, ch))
    ensures k < |s.lists(FromDriver(p))| ==>
              s.lists(FromDriver(p))[k] < c.total && s.place(s.lists(FromDriver(p))[k]) == FromDriver(p)
  {
    hide LfQueue.Valid, LfQueue.InRing, NicRing.Valid, NicRing.Window, Placed, AllLawful, Walked, Coherent;
    var s' := DispatchStep(s, p, k, flush, ch);
    var l := s.lists(FromDriver(p));
    if k < |l| && ch.yes && ch.target != p {
      StagePlaced(c, s, FromDriver(p), k, Dispatch, p, ch.target);
    } else {
      if k < |l| { InPlace(c, s, FromDriver(p), l[k]); }
      MoveNone(c, s, s');
    }
  }

  lemma DispatchKeeps(c: Config, s: State, p: nat, k: nat, flush: bool, ch: Choice)
    requires Inv(c, s) && p < c.n && Allowed(c, ch) && s.pc(p) == DispatchTo(k, flush)
    ensures Inv(c, DispatchStep(s, p, k, flush, ch))
  {
    hide AllTidy, LfQueue.Valid, LfQueue.InRing, NicRing.Valid, NicRing.Window, Contents, Placed, Coherent, PartsValid;
    var s' := DispatchStep(s, p, k, flush, ch);
    DispatchPlaced(c, s, p, k, flush, ch);
    assert Walked(c, s, p);
    DispatchTidy(c, s, p, k, flush, ch);
    var l := s.lists(FromDriver(p));
    if k < |l| && ch.yes && ch.target != p {
      StageCoherent(s, s', p, Link(p, ch.target), l[k]);
    } else {
      QuietCoherent(s, s', p);
    }
    OthersWalked(c, s, s', p);
  }

  /** One staged packet goes into the queue. */
  lemma FlushFillPlaced(c: Config, s: State, p: nat, q: nat, from: FlushFrom)
    requires Inv(c, s) && p < c.n && q < c.n && q != p && s.pc(p) == Flush(q, true, from)
    requires s.queue(Link(p, q)).prod.PFilling? && s.queue(Link(p, q)).staged != []
    ensures PartsValid(FlushStep(c, s, p, q, true, from)) && Placed(c, FlushStep(c, s, p, q, true, from))
  {
    hide LfQueue.Valid, LfQueue.InRing, NicRing.Valid, NicRing.Window, Placed, AllLawful, Walked, Coherent;
    var s' := FlushStep(c, s, p, q, true, from);
    var l := s.queue(Link(p, q));
    var l' := LfQueue.ProducerStep(l);
    LinkValid(s, p, q);
    LfQueue.ProducerStepKeeps(l);
    LfQueue.ProducerFillKeeps(l);
    InPlace(c, s, Staged(p, q), l.staged[0]);
    LinkSet(s, s', Link(p, q), l');
    Loaded(c, s, s', Staged(p, q), InQueue(p, q));
  }

  lemma FlushPlaced(c: Config, s: State, p: nat, q: nat, busy: bool, from: FlushFrom)
    requires Inv(c, s) && p < c.n && s.pc(p) == Flush(q, busy, from)
    ensures PartsValid(FlushStep(c, s, p, q, busy, from)) && Placed(c, FlushStep(c, s, p, q, busy, from))
    ensures var l := s.queue(Link(p, q));
            l.staged != [] ==> l.staged[0] < c.total && s.place(l.staged[0]) == Staged(p, q)
  {
    hide LfQueue.Valid, LfQueue.InRing, NicRing.Valid, NicRing.Window, Placed, AllLawful, Walked, Coherent;
    var s' := FlushStep(c, s, p, q, busy, from);
    var l := s.queue(Link(p, q));
    LinksOk(s, p, q);
    if l.staged != [] { InPlace(c, s, Staged(p, q), l.staged[0]); }
    if q < c.n && q != p && busy {
      LfQueue.ProducerStepKeeps(l);
      if l.prod.PFilling? && l.staged != [] {
        FlushFillPlaced(c, s, p, q, from);
      } else {
        LfQueue.ProducerOtherKeeps(l);
        MoveNone(c, s, s');
      }
    } else {
      if q < c.n && q != p { LfQueue.ProducerBeginKeeps(l); }
      MoveNone(c, s, s');
    }
  }

  lemma FlushCoherent(c: Config, s: State, p: nat, q: nat, busy: bool, from: FlushFrom)
    requires Inv(c, s) && p < c.n && s.pc(p) == Flush(q, busy, from)
    ensures Coherent(FlushStep(c, s, p, q, busy, from))
  {
    hide LfQueue.Valid, LfQueue.InRing, NicRing.Valid, NicRing.Window, Contents, Placed, AllLawful, PartsValid,
         Coherent;
    assert Walked(c, s, p);
    LinksOk(s, p, q);
    LinkValid(s, p, q);
    LfQueue.IdleFacts(s.queue(Link(p, q)));
    PutCoherent(s, FlushStep(c, s, p, q, busy, from), p, q);
  }

  /** What a step of a flush does to everything but the queue. */
  lemma FlushMoves(c: Config, s: State, p: nat, q: nat, busy: bool, from: FlushFrom)
    requires Inv(c, s) && p < c.n && s.pc(p) == Flush(q, busy, from)
    ensures var s', staged := FlushStep(c, s, p, q, busy, from), s.queue(Link(p, q)).staged;
            && s'.lists == s.lists && s'.mark == s.mark && OthersStay(s, s', p) && PcOk(c, s'.pc(p), p)
            && (s'.pc(p) == AfterFlush(from) || (s'.pc(p).Flush? && s'.pc(p).after == from))
            && (s'.place == s.place ||
                (staged != [] && q < c.n && q != p && s'.place == SetAt(s.place, staged[0], InQueue(p, q))))
  {
    hide LfQueue.Valid, LfQueue.InRing, Contents, Placed, Coherent, PartsValid, AllLawful;
    assert Walked(c, s, p);
    LinksOk(s, p, q);
    LinkValid(s, p, q);
    LfQueue.IdleFacts(s.queue(Link(p, q)));
  }

  lemma FlushKeeps(c: Config, s: State, p: nat, q: nat, busy: bool, from: FlushFrom)
    requires Inv(c, s) && p < c.n && s.pc(p) == Flush(q, busy, from)
    ensures Inv(c, FlushStep(c, s, p, q, busy, from))
  {
    hide AllTidy, Contents, Placed, Coherent, PartsValid, AllLawful, FlushStep;
    var s' := FlushStep(c, s, p, q, busy, from);
    FlushPlaced(c, s, p, q, busy, from);
    FlushCoherent(c, s, p, q, busy, from);
    FlushMoves(c, s, p, q, busy, from);
    assert Walked(c, s, p);
    FlushTidy(c, s, p, q, busy, from);
    OthersWalked(c, s, s', p);
    var staged := s.queue(Link(p, q)).staged;
    if s'.place != s.place {
      LawfulAt(c, s, staged[0]);
      LawfulMoved(c, s, s', staged[0]);
    } else {
      LawfulMoved(c, s, s', c.total);
    }
  }

  lemma DeliveredPlaced(c: Config, s: State, p: nat, q: nat)
    requires Inv(c, s) && p < c.n && q < c.n && q != p && s.pc(p) == RecvQueue(q, true)
    requires LfQueue.Delivered(s.queue(Link(q, p))) != []
    ensures PartsValid(RecvQueueStep(c, s, p, q, true)) && Placed(c, RecvQueueStep(c, s, p, q, true))
  {
    hide LfQueue.Valid, LfQueue.InRing, NicRing.Valid, NicRing.Window, Placed, AllLawful, Walked, Coherent;
    var s' := RecvQueueStep(c, s, p, q, true);
    QueueOldest(c, s, p, q);
    var l' := LfQueue.ConsumerStep(s.queue(Link(q, p)));
    var x := LfQueue.Delivered(s.queue(Link(q, p)))[0];
    var rest := LfQueue.InRing(l');
    var d := s.lists(FromDispatch(p));
    assert s' == s.(queue := Set(s.queue, Link(q, p), l'), lists := Set(s.lists, FromDispatch(p), d + [x]),
                    place := SetAt(s.place, x, FromDispatch(p)));
    assert Contents(s, InQueue(q, p)) == [] + [x] + rest && Contents(s', InQueue(q, p)) == [] + rest;
    assert Contents(s, FromDispatch(p)) == d + [] && Contents(s', FromDispatch(p)) == d + [x] + [];
    MoveOne(c, s, s', InQueue(q, p), [], x, rest, FromDispatch(p), d, []);
  }

  lemma RecvQueuePlaced(c: Config, s: State, p: nat, q: nat, busy: bool)
    requires Inv(c, s) && p < c.n && s.pc(p) == RecvQueue(q, busy)
    ensures PartsValid(RecvQueueStep(c, s, p, q, busy)) && Placed(c, RecvQueueStep(c, s, p, q, busy))
  {
    hide LfQueue.Valid, LfQueue.InRing, NicRing.Valid, NicRing.Window, Placed, AllLawful, Walked, Coherent;
    var l := s.queue(Link(q, p));
    LinksOk(s, p, q);
    if q < c.n && q != p && busy && LfQueue.Delivered(l) != [] {
      DeliveredPlaced(c, s, p, q);
    } else {
      if q < c.n && q != p {
        if busy {
          QueueOldest(c, s, p, q);
          assert [] + LfQueue.InRing(LfQueue.ConsumerStep(l)) == LfQueue.InRing(LfQueue.ConsumerStep(l));
        } else {
          LfQueue.ConsumerBeginKeeps(l);
        }
      }
      MoveNone(c, s, RecvQueueStep(c, s, p, q, busy));
    }
  }

  lemma RecvQueueCoherent(c: Config, s: State, p: nat, q: nat, busy: bool)
    requires Inv(c, s) && p < c.n && s.pc(p) == RecvQueue(q, busy)
    ensures Coherent(RecvQueueStep(c, s, p, q, busy))
  {
    hide LfQueue.Valid, LfQueue.InRing, NicRing.Valid, NicRing.Window, Contents, Placed, AllLawful, PartsValid,
         Coherent;
    assert Walked(c, s, p);
    LinksOk(s, p, q);
    LinkValid(s, q, p);
    QueueOldest(c, s, p, q);
    LfQueue.IdleFacts(s.queue(Link(q, p)));
    LfQueue.IdleFacts(LfQueue.ConsumerStep(s.queue(Link(q, p))));
    GetCoherent(s, RecvQueueStep(c, s, p, q, busy), p, q);
  }

  lemma RecvQueueKeeps(c: Config, s: State, p: nat, q: nat, busy: bool)
    requires Inv(c, s) && p < c.n && s.pc(p) == RecvQueue(q, busy)
    ensures Inv(c, RecvQueueStep(c, s, p, q, busy))
  {
    hide AllTidy, LfQueue.Valid, LfQueue.InRing, NicRing.Valid, NicRing.Window, Contents, Placed, Coherent, PartsValid;
    var s' := RecvQueueStep(c, s, p, q, busy);
    RecvQueuePlaced(c, s, p, q, busy);
    assert Walked(c, s, p);
    RecvQueueTidy(c, s, p, q, busy);
    RecvQueueCoherent(c, s, p, q, busy);
    QueueOldest(c, s, p, q);
    LinksOk(s, p, q);
    LinkValid(s, q, p);
    LfQueue.IdleFacts(s.queue(Link(q, p)));
    LfQueue.IdleFacts(LfQueue.ConsumerStep(s.queue(Link(q, p))));
    OthersWalked(c, s, s', p);
  }

  lemma ClassifyPlaced(c: Config, s: State, p: nat, k: nat)
    requires Inv(c, s) && p < c.n && s.pc(p) == Classify(k)
    ensures PartsValid(ClassifyStep(s, p, k)) && Placed(c, ClassifyStep(s, p, k))
    ensures var l := s.lists(FromDispatch(p));
            Distinct(l) && (k < |l| ==> l[k] < c.total && s.place(l[k]) == FromDispatch(p))
  {
    hide LfQueue.Valid, LfQueue.InRing, NicRing.Valid, NicRing.Window, Placed, Walked, Coherent;
    var s' := ClassifyStep(s, p, k);
    var l := s.lists(FromDispatch(p));
    assert l == Contents(s, FromDispatch(p));
    OnceThere(c, s, FromDispatch(p));
    if k < |l| {
      InPlace(c, s, FromDispatch(p), l[k]);
      assert Lawful(c, FromDispatch(p), s.mark(l[k]), c.owner(l[k]));
    }
    if k < |l| && s.mark(l[k]) == Reclaim {
      var s1 := s.(mark := SetAt(s.mark, l[k], End));
      MoveNone(c, s, s1);
      MoveTailPlaced(c, s1, FromDispatch(p), k, FreeHead(p));
    } else {
      MoveNone(c, s, s');
    }
  }

  lemma ClassifyKeeps(c: Config, s: State, p: nat, k: nat)
    requires Inv(c, s) && p < c.n && s.pc(p) == Classify(k)
    ensures Inv(c, ClassifyStep(s, p, k))
  {
    hide AllTidy, LfQueue.Valid, LfQueue.InRing, NicRing.Valid, NicRing.Window, Contents, Placed, Coherent, PartsValid;
    var s' := ClassifyStep(s, p, k);
    ClassifyPlaced(c, s, p, k);
    assert Walked(c, s, p);
    ClassifyTidy(c, s, p, k);
    QuietCoherent(s, s', p);
    OthersWalked(c, s, s', p);
  }

  /** The two calls of process_packets. */
  predicate Processes(s: State, p: nat, from: Place, back: Place, next: PC) {
    if s.pc(p) == ProcessDriver then from == FromDriver(p) && back == FreeHead(p) && next == ProcessDispatch
    else s.pc(p) == ProcessDispatch && from == FromDispatch(p) && back == ToReclaim(p) && next == ReclaimTx(0, false)
  }

  lemma ProcessPlaced(c: Config, s: State, p: nat, from: Place, back: Place, next: PC, ch: Choice)
    requires Inv(c, s) && p < c.n && Allowed(c, ch) && Processes(s, p, from, back, next)
    ensures PartsValid(ProcessStep(s, p, from, back, next, ch))
    ensures Placed(c, ProcessStep(s, p, from, back, next, ch))
    ensures s.lists(from) != [] ==> s.lists(from)[0] < c.total && s.place(s.lists(from)[0]) == from
  {
    hide LfQueue.Valid, LfQueue.InRing, NicRing.Valid, NicRing.Window, Placed, AllLawful, Walked, Coherent;
    var s' := ProcessStep(s, p, from, back, next, ch);
    var l := s.lists(from);
    if l != [] { InPlace(c, s, from, l[0]); }
    if l != [] && ch.yes {
      MoveTailPlaced(c, s, from, 0, TxPool(p, ch.adapter));
      MoveNone(c, MoveTail(s, from, 0, TxPool(p, ch.adapter)), s');
    } else if l != [] {
      MoveFrontPlaced(c, s, from, back);
    } else {
      MoveNone(c, s, s');
    }
  }

  lemma ProcessStepKeeps(c: Config, s: State, p: nat, from: Place, back: Place, next: PC, ch: Choice)
    requires Inv(c, s) && p < c.n && Allowed(c, ch) && Processes(s, p, from, back, next)
    ensures Inv(c, ProcessStep(s, p, from, back, next, ch))
  {
    hide AllTidy, Contents, Placed, Coherent, PartsValid, AllLawful;
    var s' := ProcessStep(s, p, from, back, next, ch);
    ProcessPlaced(c, s, p, from, back, next, ch);
    assert Walked(c, s, p);
    ProcessTidy(c, s, p, from, back, next, ch);
    QuietCoherent(s, s', p);
    OthersWalked(c, s, s', p);
    var l := s.lists(from);
    if l != [] {
      LawfulAt(c, s, l[0]);
      LawfulMoved(c, s, s', l[0]);
    } else {
      LawfulMoved(c, s, s', c.total);
    }
  }

  lemma ProcessKeeps(c: Config, s: State, p: nat, ch: Choice)
    requires Inv(c, s) && p < c.n && Allowed(c, ch) && (s.pc(p) == ProcessDriver || s.pc(p) == ProcessDispatch)
    ensures Inv(c, Step(c, s, p, ch))
  {
    hide Inv, ProcessStep;
    if s.pc(p) == ProcessDriver {
      ProcessStepKeeps(c, s, p, FromDriver(p), FreeHead(p), ProcessDispatch, ch);
    } else {
      ProcessStepKeeps(c, s, p, FromDispatch(p), ToReclaim(p), ReclaimTx(0, false), ch);
    }
  }

  lemma ReturnPlaced(c: Config, s: State, p: nat, k: nat, flush: bool)
    requires Inv(c, s) && p < c.n && s.pc(p) == Return(k, flush)
    ensures PartsValid(ReturnStep(c, s, p, k, flush)) && Placed(c, ReturnStep(c, s, p, k, flush))
    ensures var l := s.lists(ToReclaim(p)); k < |l| ==> l[k] < c.total && s.place(l[k]) == ToReclaim(p)
  {
    hide LfQueue.Valid, LfQueue.InRing, NicRing.Valid, NicRing.Window, Placed, AllLawful, Walked, Coherent;
    var s' := ReturnStep(c, s, p, k, flush);
    var l := s.lists(ToReclaim(p));
    if k < |l| { InPlace(c, s, ToReclaim(p), l[k]); }
    if k < |l| && c.owner(l[k]) != p {
      StagePlaced(c, s, ToReclaim(p), k, Reclaim, p, c.owner(l[k]));
    } else {
      MoveNone(c, s, s');
    }
  }

  lemma ReturnWalked(c: Config, s: State, p: nat, k: nat, flush: bool)
    requires Walked(c, s, p) && s.pc(p) == Return(k, flush)
    ensures Walked(c, ReturnStep(c, s, p, k, flush), p)
  {
  }

  lemma ReturnKeeps(c: Config, s: State, p: nat, k: nat, flush: bool)
    requires Inv(c, s) && p < c.n && s.pc(p) == Return(k, flush)
    ensures Inv(c, ReturnStep(c, s, p, k, flush))
  {
    hide AllTidy, Contents, Placed, Coherent, PartsValid, AllLawful, Walked;
    var s' := ReturnStep(c, s, p, k, flush);
    ReturnPlaced(c, s, p, k, flush);
    ReturnWalked(c, s, p, k, flush);
    ReturnTidy(c, s, p, k, flush);
    OthersWalked(c, s, s', p);
    var l := s.lists(ToReclaim(p));
    if k < |l| && c.owner(l[k]) != p {
      StageCoherent(s, s', p, Link(p, c.owner(l[k])), l[k]);
      LawfulAt(c, s, l[k]);
      LawfulMoved(c, s, s', l[k]);
    } else {
      QuietCoherent(s, s', p);
      LawfulMoved(c, s, s', c.total);
    }
  }

  lemma PutPlaced(c: Config, s: State, p: nat, ch: Choice)
    requires Inv(c, s) && p < c.n && (s.pc(p) == PutFree || s.pc(p) == PutReclaim)
    ensures PartsValid(Step(c, s, p, ch)) && Placed(c, Step(c, s, p, ch))
    ensures var from := if s.pc(p) == PutFree then FreeHead(p) else ToReclaim(p);
            s.lists(from) != [] ==> s.lists(from)[0] < c.total && s.place(s.lists(from)[0]) == from
  {
    hide LfQueue.Valid, LfQueue.InRing, NicRing.Valid, NicRing.Window, Placed, AllLawful, Walked, Coherent;
    var s' := Step(c, s, p, ch);
    var from := if s.pc(p) == PutFree then FreeHead(p) else ToReclaim(p);
    if s.lists(from) != [] { InPlace(c, s, from, s.lists(from)[0]); }
    if s.lists(from) != [] {
      MoveTailPlaced(c, s, from, 0, Free(p));
    } else {
      MoveNone(c, s, s');
    }
  }

  lemma PutKeeps(c: Config, s: State, p: nat, ch: Choice)
    requires Inv(c, s) && p < c.n && (s.pc(p) == PutFree || s.pc(p) == PutReclaim)
    ensures Inv(c, Step(c, s, p, ch))
  {
    hide AllTidy, LfQueue.Valid, LfQueue.InRing, NicRing.Valid, NicRing.Window, Contents, Placed, Coherent, PartsValid;
    var s' := Step(c, s, p, ch);
    PutPlaced(c, s, p, ch);
    if s.pc(p) == PutFree { PutTidy(c, s, p, FreeHead(p), PutReclaim); } else {
      PutTidy(c, s, p, ToReclaim(p), SendTx(0, false));
    }
    assert Walked(c, s, p);
    QuietCoherent(s, s', p);
    OthersWalked(c, s, s', p);
  }

  lemma SendTxPlaced(c: Config, s: State, p: nat, a: nat, busy: bool)
    requires Inv(c, s) && p < c.n && s.pc(p) == SendTx(a, busy)
    ensures PartsValid(SendTxStep(c, s, p, a, busy)) && Placed(c, SendTxStep(c, s, p, a, busy))
    ensures s.lists(TxPool(p, a)) != [] ==>
              s.lists(TxPool(p, a))[0] < c.total && s.place(s.lists(TxPool(p, a))[0]) == TxPool(p, a)
  {
    hide LfQueue.Valid, LfQueue.InRing, NicRing.Valid, NicRing.Window, Placed, AllLawful, Walked, Coherent,
         NicRing.Fill, NicRing.FillBegin, NicRing.FillEnd, NicRing.HasRoom;
    var s' := SendTxStep(c, s, p, a, busy);
    var r := s.tx(RingId(p, a));
    ScansOk(s, p, a);
    RingsValid(s, p, a);
    var l := s.lists(TxPool(p, a));
    assert l == Contents(s, TxPool(p, a));
    if l != [] { InPlace(c, s, TxPool(p, a), l[0]); }
    if a < c.m && busy && NicRing.HasRoom(r) && l != [] {
      NicRing.FillKeeps(r, l[0]);
      TxSet(s, s', RingId(p, a), NicRing.Fill(r, l[0]));
      Loaded(c, s, s', TxPool(p, a), TxSlot(p, a));
    } else {
      if a < c.m {
        if busy { NicRing.FillEndKeeps(r); } else { NicRing.BeginKeeps(r); }
      }
      MoveNone(c, s, s');
    }
  }

  lemma SendTxCoherent(c: Config, s: State, p: nat, a: nat, busy: bool)
    requires Inv(c, s) && p < c.n && s.pc(p) == SendTx(a, busy)
    ensures Coherent(SendTxStep(c, s, p, a, busy))
  {
    hide LfQueue.Valid, LfQueue.InRing, NicRing.Valid, NicRing.Window, Contents, Placed, AllLawful, PartsValid,
         Coherent;
    assert Walked(c, s, p);
    ScansOk(s, p, a);
    TxCoherent(s, SendTxStep(c, s, p, a, busy), p, a);
  }

  lemma SendTxKeeps(c: Config, s: State, p: nat, a: nat, busy: bool)
    requires Inv(c, s) && p < c.n && s.pc(p) == SendTx(a, busy)
    ensures Inv(c, SendTxStep(c, s, p, a, busy))
  {
    hide AllTidy, LfQueue.Valid, LfQueue.InRing, NicRing.Valid, NicRing.Window, Contents, Placed, Coherent, PartsValid;
    var s' := SendTxStep(c, s, p, a, busy);
    SendTxPlaced(c, s, p, a, busy);
    assert Walked(c, s, p);
    SendTxTidy(c, s, p, a, busy);
    SendTxCoherent(c, s, p, a, busy);
    OthersWalked(c, s, s', p);
  }

}
