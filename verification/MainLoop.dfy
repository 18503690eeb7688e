/** uspace/src/main.c: main_loop of every process, interleaved with the others and with the device.
    The calls it makes into driver.c, packet.c, dispatch.c, lf_queue.c and process.c are unfolded into one
    step per loop iteration, and one step per shared access for the queues between processes. */
module MainLoop {
  import opened Places
  import LfQueue
  import NicRing

  /** What the environment decides in a step: whether a packet's protocol is known, whether it is IP and to
      which process its flow is dispatched, whether it is stolen and for which adapter, or whether an ARP
      request goes out and on which adapter. */
  datatype Choice = Choice(yes: bool, target: nat, adapter: nat)

  ghost predicate Allowed(c: Config, ch: Choice) {
    ch.target < c.n && ch.adapter < c.m
  }

  // ---------- small updates ----------

  function Goto(s: State, p: nat, pc: PC): State {
    s.(pc := SetAt(s.pc, p, pc))
  }

  /** list_del at position k. */
  function Remove(l: seq<nat>, k: nat): seq<nat>
    requires k < |l|
  {
    l[..k] + l[k + 1..]
  }

  /** Position k of list `from` goes to the tail of list `to`. */
  function MoveTail(s: State, from: Place, k: nat, to: Place): State
    requires k < |s.lists(from)| && from != to
  {
    var x := s.lists(from)[k];
    s.(lists := Set(Set(s.lists, from, Remove(s.lists(from), k)), to, s.lists(to) + [x]),
       place := SetAt(s.place, x, to))
  }

  /** The first packet of list `from` goes to the front of list `to` (list_add). */
  function MoveFront(s: State, from: Place, to: Place): State
    requires s.lists(from) != [] && from != to
  {
    var x := s.lists(from)[0];
    s.(lists := Set(Set(s.lists, from, s.lists(from)[1..]), to, [x] + s.lists(to)),
       place := SetAt(s.place, x, to))
  }

  /** list_del, packet_set_lfq_state, lfq_send: position k of list `from` is staged for process q. */
  function Stage(s: State, from: Place, k: nat, mark: Mark, p: nat, q: nat): State
    requires k < |s.lists(from)|
  {
    var x := s.lists(from)[k];
    s.(lists := Set(s.lists, from, Remove(s.lists(from), k)),
       queue := Set(s.queue, Link(p, q), LfQueue.Send(s.queue(Link(p, q)), x)),
       mark := SetAt(s.mark, x, mark),
       place := SetAt(s.place, x, Staged(p, q)))
  }

  // ---------- one step per program point ----------

  /** rt_find_server_route before the loop: ARP requests built in free packets. */
  function FindRouteStep(s: State, p: nat, ch: Choice): State {
    if !ch.yes then Goto(s, p, AllocRx(0, false))
    else if s.lists(Free(p)) == [] then s
    else
      var x := s.lists(Free(p))[0];
      MoveTail(s, Free(p), 0, TxPool(p, ch.adapter)).(adapter := SetAt(s.adapter, x, ch.adapter))
  }

  /** driver_alloc_rx_buffer */
  function AllocRxStep(c: Config, s: State, p: nat, a: nat, busy: bool): State
    requires PartsValid(s) && Coherent(s) && s.pc(p) == AllocRx(a, busy)
  {
    var r := s.rx(RingId(p, a));
    if a >= c.m then Goto(s, p, RecvRx(0, false))
    else if !busy then
      Goto(s, p, AllocRx(a, true)).(rx := Set(s.rx, RingId(p, a), NicRing.FillBegin(r)))
    else if NicRing.HasRoom(r) && s.lists(Free(p)) != [] then
      var x := s.lists(Free(p))[0];
      s.(rx := Set(s.rx, RingId(p, a), NicRing.Fill(r, x)),
         lists := Set(s.lists, Free(p), s.lists(Free(p))[1..]),
         place := SetAt(s.place, x, RxSlot(p, a)))
    else
      Goto(s, p, AllocRx(a + 1, false)).(rx := Set(s.rx, RingId(p, a), NicRing.FillEnd(r)))
  }

  /** driver_recv, first loop */
  function RecvRxStep(c: Config, s: State, p: nat, a: nat, busy: bool): State
    requires PartsValid(s) && Coherent(s) && s.pc(p) == RecvRx(a, busy)
  {
    var r := s.rx(RingId(p, a));
    if a >= c.m then Goto(s, p, SpliceRx(0))
    else if !busy then
      Goto(s, p, RecvRx(a, true)).(rx := Set(s.rx, RingId(p, a), NicRing.DrainBegin(r)))
    else if NicRing.CanDrain(r, false) then
      match r.buffer[r.scan.i] {
        case None => Goto(s, p, Exited)  // the code dereferences NULL here
        case Some(x) =>
          s.(rx := Set(s.rx, RingId(p, a), NicRing.Drain(r)),
             lists := Set(s.lists, RxPool(p, a), s.lists(RxPool(p, a)) + [x]),
             adapter := SetAt(s.adapter, x, a),
             place := SetAt(s.place, x, RxPool(p, a)))
      }
    else
      Goto(s, p, RecvRx(a + 1, false)).(rx := Set(s.rx, RingId(p, a), NicRing.DrainEnd(r)))
  }

  /** driver_get_received_packets */
  function SpliceRxStep(c: Config, s: State, p: nat, a: nat): State {
    if a >= c.m then Goto(s, p, Filter(0))
    else
      var l := s.lists(RxPool(p, a));
      Goto(s, p, SpliceRx(a + 1)).(
        lists := Set(Set(s.lists, RxPool(p, a), []), FromDriver(p), s.lists(FromDriver(p)) + l),
        place := (x: nat) => if x in l then FromDriver(p) else s.place(x))
  }

  /** packet_init_and_filter */
  function FilterStep(s: State, p: nat, k: nat, ch: Choice): State {
    var l := s.lists(FromDriver(p));
    if k >= |l| then Goto(s, p, DispatchTo(0, l != []))
    else
      var s1 := s.(mark := SetAt(s.mark, l[k], Start));
      if ch.yes then Goto(s1, p, Filter(k + 1))
      else MoveTail(s1, FromDriver(p), k, FreeHead(p))
  }

  /** dispatch_packet, the loop over send_head */
  function DispatchStep(s: State, p: nat, k: nat, flush: bool, ch: Choice): State {
    var l := s.lists(FromDriver(p));
    if k >= |l| then Goto(s, p, if flush then Flush(0, false, DispatchPacket) else RecvQueue(0, false))
    else if ch.yes && ch.target != p then Stage(s, FromDriver(p), k, Dispatch, p, ch.target)
    else Goto(s, p, DispatchTo(k + 1, flush))
  }

  function AfterFlush(from: FlushFrom): PC {
    match from
    case DispatchPacket => RecvQueue(0, false)
    case DispatchReclaim => PutFree
    case EndOfLoop => AllocRx(0, false)
  }

  /** lfq_send_flush */
  function FlushStep(c: Config, s: State, p: nat, q: nat, busy: bool, from: FlushFrom): State
    requires PartsValid(s) && s.pc(p) == Flush(q, busy, from)
  {
    var link := Link(p, q);
    var l := s.queue(link);
    if q >= c.n then Goto(s, p, AfterFlush(from))
    else if q == p then Goto(s, p, Flush(q + 1, false, from))
    else if !busy then
      Goto(s, p, Flush(q, true, from)).(queue := Set(s.queue, link, LfQueue.ProducerBegin(l)))
    else
      var l' := LfQueue.ProducerStep(l);
      var s' := s.(queue := Set(s.queue, link, l'));
      if l'.prod.PExited? then Goto(s', p, Exited)
      else if l'.prod.PIdle? then Goto(s', p, Flush(q + 1, false, from))
      else if |l'.staged| < |l.staged| then s'.(place := SetAt(s.place, l.staged[0], InQueue(p, q)))
      else s'
  }

  /** lfq_recv: process p empties the queue that leads from q to p. */
  function RecvQueueStep(c: Config, s: State, p: nat, q: nat, busy: bool): State
    requires PartsValid(s) && s.pc(p) == RecvQueue(q, busy)
  {
    var link := Link(q, p);
    var l := s.queue(link);
    if q >= c.n then Goto(s, p, Classify(0))
    else if q == p then Goto(s, p, RecvQueue(q + 1, false))
    else if !busy then
      Goto(s, p, RecvQueue(q, true)).(queue := Set(s.queue, link, LfQueue.ConsumerBegin(l)))
    else
      var l' := LfQueue.ConsumerStep(l);
      var got := LfQueue.Delivered(l);
      var s' := s.(queue := Set(s.queue, link, l'));
      if l'.cons.CExited? then Goto(s', p, Exited)
      else if l'.cons.CIdle? then Goto(s', p, RecvQueue(q + 1, false))
      else if got != [] then
        s'.(lists := Set(s.lists, FromDispatch(p), s.lists(FromDispatch(p)) + got),
            place := SetAt(s.place, got[0], FromDispatch(p)))
      else s'
  }

  /** dispatch_packet, the loop over recv_head */
  function ClassifyStep(s: State, p: nat, k: nat): State {
    var l := s.lists(FromDispatch(p));
    if k >= |l| then Goto(s, p, ProcessDriver)
    else
      match s.mark(l[k])
      case Start => Goto(s, p, Classify(k + 1))
      case Dispatch => Goto(s, p, Classify(k + 1))
      case Reclaim => MoveTail(s.(mark := SetAt(s.mark, l[k], End)), FromDispatch(p), k, FreeHead(p))
      case Xmit => MoveTail(s, FromDispatch(p), k, TxPool(p, s.adapter(l[k])))
      case End => Goto(s, p, Exited)
  }

  /** process_packets on one packet: stolen packets are on the send list of the adapter the connection or
      the ARP reply chose, all others are handed back. */
  function ProcessStep(s: State, p: nat, from: Place, back: Place, next: PC, ch: Choice): State
    requires from == FromDriver(p) || from == FromDispatch(p)
    requires back == FreeHead(p) || back == ToReclaim(p)
  {
    if s.lists(from) == [] then Goto(s, p, next)
    else if ch.yes then
      var x := s.lists(from)[0];
      MoveTail(s, from, 0, TxPool(p, ch.adapter)).(adapter := SetAt(s.adapter, x, ch.adapter))
    else MoveFront(s, from, back)
  }

  /** driver_reclaim_tx_buffer */
  function ReclaimTxStep(c: Config, s: State, p: nat, a: nat, busy: bool): State
    requires PartsValid(s) && Coherent(s) && s.pc(p) == ReclaimTx(a, busy)
  {
    var r := s.tx(RingId(p, a));
    if a >= c.m then Goto(s, p, Return(0, s.lists(ToReclaim(p)) != []))
    else if !busy then
      Goto(s, p, ReclaimTx(a, true)).(tx := Set(s.tx, RingId(p, a), NicRing.DrainBegin(r)))
    else if NicRing.CanDrain(r, true) then
      match r.buffer[r.scan.i] {
        case None => Goto(s, p, Exited)
        case Some(x) =>
          s.(tx := Set(s.tx, RingId(p, a), NicRing.Drain(r)),
             lists := Set(s.lists, ToReclaim(p), s.lists(ToReclaim(p)) + [x]),
             place := SetAt(s.place, x, ToReclaim(p)))
      }
    else
      Goto(s, p, ReclaimTx(a + 1, false)).(tx := Set(s.tx, RingId(p, a), NicRing.DrainEnd(r)))
  }

  /** dispatch_reclaim */
  function ReturnStep(c: Config, s: State, p: nat, k: nat, flush: bool): State {
    var l := s.lists(ToReclaim(p));
    if k >= |l| then Goto(s, p, if flush then Flush(0, false, DispatchReclaim) else PutFree)
    else if c.owner(l[k]) != p then Stage(s, ToReclaim(p), k, Reclaim, p, c.owner(l[k]))
    else Goto(s, p, Return(k + 1, flush))
  }

  /** packet_zone_reclaim, one packet of its loop */
  function PutStep(s: State, p: nat, from: Place, next: PC): State
    requires from == FreeHead(p) || from == ToReclaim(p)
  {
    if s.lists(from) == [] then Goto(s, p, next) else MoveTail(s, from, 0, Free(p))
  }

  /** driver_send */
  function SendTxStep(c: Config, s: State, p: nat, a: nat, busy: bool): State
    requires PartsValid(s) && Coherent(s) && s.pc(p) == SendTx(a, busy)
  {
    var r := s.tx(RingId(p, a));
    var l := s.lists(TxPool(p, a));
    if a >= c.m then Goto(s, p, Flush(0, false, EndOfLoop))
    else if !busy then
      Goto(s, p, SendTx(a, true)).(tx := Set(s.tx, RingId(p, a), NicRing.FillBegin(r)))
    else if NicRing.HasRoom(r) && l != [] then
      s.(tx := Set(s.tx, RingId(p, a), NicRing.Fill(r, l[0])),
         lists := Set(s.lists, TxPool(p, a), l[1..]),
         place := SetAt(s.place, l[0], TxSlot(p, a)))
    else
      Goto(s, p, SendTx(a + 1, false)).(tx := Set(s.tx, RingId(p, a), NicRing.FillEnd(r)))
  }

  function Step(c: Config, s: State, p: nat, ch: Choice): State
    requires PartsValid(s) && Coherent(s)
  {
    match s.pc(p)
    case FindRoute => FindRouteStep(s, p, ch)
    case AllocRx(a, busy) => AllocRxStep(c, s, p, a, busy)
    case RecvRx(a, busy) => RecvRxStep(c, s, p, a, busy)
    case SpliceRx(a) => SpliceRxStep(c, s, p, a)
    case Filter(k) => FilterStep(s, p, k, ch)
    case DispatchTo(k, flush) => DispatchStep(s, p, k, flush, ch)
    case Flush(q, busy, from) => FlushStep(c, s, p, q, busy, from)
    case RecvQueue(q, busy) => RecvQueueStep(c, s, p, q, busy)
    case Classify(k) => ClassifyStep(s, p, k)
    case ProcessDriver => ProcessStep(s, p, FromDriver(p), FreeHead(p), ProcessDispatch, ch)
    case ProcessDispatch => ProcessStep(s, p, FromDispatch(p), ToReclaim(p), ReclaimTx(0, false), ch)
    case ReclaimTx(a, busy) => ReclaimTxStep(c, s, p, a, busy)
    case Return(k, flush) => ReturnStep(c, s, p, k, flush)
    case PutFree => PutStep(s, p, FreeHead(p), PutReclaim)
    case PutReclaim => PutStep(s, p, ToReclaim(p), SendTx(0, false))
    case SendTx(a, busy) => SendTxStep(c, s, p, a, busy)
    case Exited => s
  }

  // ---------- invariants ----------

  predicate RxScanOk(pc: PC, a: nat, scan: NicRing.Scan) {
    if pc == AllocRx(a, true) then scan.Filling?
    else if pc == RecvRx(a, true) then scan.Draining?
    else scan.Idle?
  }

  predicate TxScanOk(pc: PC, a: nat, scan: NicRing.Scan) {
    if pc == SendTx(a, true) then scan.Filling?
    else if pc == ReclaimTx(a, true) then scan.Draining?
    else scan.Idle?
  }

  predicate Producing(pc: PC, q: nat) {
    pc.Flush? && pc.q == q && pc.busy
  }

  ghost predicate RxScans(s: State) {
    forall id: RingId :: RxScanOk(s.pc(id.p), id.a, s.rx(id).scan)
  }

  ghost predicate TxScans(s: State) {
    forall id: RingId :: TxScanOk(s.pc(id.p), id.a, s.tx(id).scan)
  }

  ghost predicate Producers(s: State) {
    forall l: Link :: s.queue(l).prod.PIdle? <==> !Producing(s.pc(l.p), l.q)
  }

  ghost predicate Consumers(s: State) {
    forall l: Link :: s.queue(l).cons.CIdle? <==> s.pc(l.q) != RecvQueue(l.p, true)
  }

  /** A ring or queue operation is in progress exactly where the owning process's program point says so;
      in particular each queue has one producing and one consuming process. */
  ghost predicate Coherent(s: State) {
    RxScans(s) && TxScans(s) && Producers(s) && Consumers(s)
  }

  /** What the container a packet is in says about its id and its lfq_state. */
  ghost predicate Lawful(c: Config, pl: Place, mark: Mark, owner: nat) {
    match pl
    case Free(p) => p < c.n && owner == p
    case RxSlot(p, a) => p < c.n && a < c.m && owner == p
    case RxPool(p, a) => p < c.n && a < c.m && owner == p
    case FromDriver(p) => p < c.n && owner == p
    case FreeHead(p) => p < c.n && owner == p
    case FromDispatch(p) => p < c.n && (mark == Dispatch || (mark == Reclaim && owner == p))
    case ToReclaim(p) => p < c.n
    case TxPool(p, a) => p < c.n && a < c.m
    case TxSlot(p, a) => p < c.n && a < c.m
    case Staged(p, q) => OnTheWay(c, p, q, mark, owner)
    case InQueue(p, q) => OnTheWay(c, p, q, mark, owner)
  }

  /** Traffic goes from its owner to another process; a packet being returned goes to its owner. */
  ghost predicate OnTheWay(c: Config, p: nat, q: nat, mark: Mark, owner: nat) {
    && p < c.n && q < c.n && p != q
    && ((mark == Dispatch && owner == p) || (mark == Reclaim && owner == q))
  }

  /** An operation only begins on a ring or queue there is, and no exit(-1) has been taken. */
  ghost predicate PcOk(c: Config, pc: PC, p: nat) {
    match pc
    case AllocRx(a, busy) => busy ==> a < c.m
    case RecvRx(a, busy) => busy ==> a < c.m
    case ReclaimTx(a, busy) => busy ==> a < c.m
    case SendTx(a, busy) => busy ==> a < c.m
    case Flush(q, busy, _) => busy ==> q < c.n && q != p
    case RecvQueue(q, busy) => busy ==> q < c.n && q != p
    case Exited => false
    case _ => true
  }

  /** What a walk over a list has established so far. */
  ghost predicate Walked(c: Config, s: State, p: nat) {
    && PcOk(c, s.pc(p), p)
    && (s.pc(p).Classify? ==>
          forall i | 0 <= i < s.pc(p).k && i < |s.lists(FromDispatch(p))| ::
            s.mark(s.lists(FromDispatch(p))[i]) == Dispatch)
    && (s.pc(p).ProcessDriver? || s.pc(p).ProcessDispatch? ==>
          forall i | 0 <= i < |s.lists(FromDispatch(p))| :: s.mark(s.lists(FromDispatch(p))[i]) == Dispatch)
    && (s.pc(p).Return? ==>
          forall i | 0 <= i < s.pc(p).k && i < |s.lists(ToReclaim(p))| :: c.owner(s.lists(ToReclaim(p))[i]) == p)
    && (s.pc(p).PutFree? || s.pc(p).PutReclaim? || (s.pc(p).Flush? && s.pc(p).after.DispatchReclaim?) ==>
          forall i | 0 <= i < |s.lists(ToReclaim(p))| :: c.owner(s.lists(ToReclaim(p))[i]) == p)
  }

  /** Whether a list that main_loop fills and empties within a turn may hold packets at a program point. */
  predicate MayHold(c: Config, pc: PC, pl: Place) {
    pc.Exited? ||
    match pl
    case RxPool(_, a) =>
      a < c.m && ((pc.RecvRx? && (a < pc.a || (pc.busy && a == pc.a))) || (pc.SpliceRx? && pc.a <= a))
    case FromDriver(_) => pc.SpliceRx? || Dispatching(pc) || pc.RecvQueue? || pc.Classify? || pc.ProcessDriver?
    case FromDispatch(_) => pc.RecvQueue? || pc.Classify? || pc.ProcessDriver? || pc.ProcessDispatch?
    case FreeHead(_) =>
      || Dispatching(pc) || pc.RecvQueue? || pc.Classify? || pc.ProcessDriver? || pc.ProcessDispatch?
      || pc.ReclaimTx? || Returning(pc) || pc.PutFree?
    case ToReclaim(_) => pc.ProcessDispatch? || pc.ReclaimTx? || Returning(pc) || pc.PutFree? || pc.PutReclaim?
    case _ => true
  }

  /** Between driver_recv and lfq_recv. */
  predicate Dispatching(pc: PC) {
    pc.Filter? || pc.DispatchTo? || (pc.Flush? && pc.after.DispatchPacket?)
  }

  /** In dispatch_reclaim. */
  predicate Returning(pc: PC) {
    pc.Return? || (pc.Flush? && pc.after.DispatchReclaim?)
  }

  /** Each call of the loop leaves the lists empty that no later one takes care of. */
  ghost predicate Tidy(c: Config, s: State, p: nat) {
    && (s.lists(FromDriver(p)) == [] || MayHold(c, s.pc(p), FromDriver(p)))
    && (s.lists(FromDispatch(p)) == [] || MayHold(c, s.pc(p), FromDispatch(p)))
    && (s.lists(FreeHead(p)) == [] || MayHold(c, s.pc(p), FreeHead(p)))
    && (s.lists(ToReclaim(p)) == [] || MayHold(c, s.pc(p), ToReclaim(p)))
    && (forall a: nat :: s.lists(RxPool(p, a)) == [] || MayHold(c, s.pc(p), RxPool(p, a)))
  }

  ghost predicate AllTidy(c: Config, s: State) {
    forall p: nat :: Tidy(c, s, p)
  }

  ghost predicate AllLawful(c: Config, s: State) {
    forall x: nat | x < c.total :: c.owner(x) < c.n && Lawful(c, s.place(x), s.mark(x), c.owner(x))
  }

  ghost predicate Inv(c: Config, s: State) {
    && PartsValid(s)
    && Coherent(s)
    && Placed(c, s)
    && AllLawful(c, s)
    && (forall p: nat :: Walked(c, s, p))
    && AllTidy(c, s)
  }
}
