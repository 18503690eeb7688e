/** uspace/src/main.c: what a process gets done from one head of its loop to the next, whatever the other processes
    and the devices do meanwhile. */
module Turn {
  import opened Places
  import opened MainLoop
  import opened MainLoopProofs
  import opened WholeSystem
  import LfQueue
  import NicRing

  /** The loops over rings and queues that one turn of main_loop goes through. */
  datatype Work =
    | FillRx(a: nat)        // driver_alloc_rx_buffer
    | DrainRx(a: nat)       // driver_recv
    | ReceiveFrom(q: nat)   // lfq_recv
    | ReclaimFrom(a: nat)   // driver_reclaim_tx_buffer
    | SendOn(a: nat)        // driver_send
    | PutTo(q: nat)         // lfq_send_flush

  /** The rings of the adapters, and the queues from and to the other processes. */
  predicate Due(c: Config, p: nat, w: Work) {
    match w
    case FillRx(a) => a < c.m
    case DrainRx(a) => a < c.m
    case ReclaimFrom(a) => a < c.m
    case SendOn(a) => a < c.m
    case ReceiveFrom(q) => q < c.n && q != p
    case PutTo(q) => q < c.n && q != p
  }

  /** The ring or queue itself says that process p is at work on it. */
  predicate UnderWay(s: State, p: nat, w: Work) {
    match w
    case FillRx(a) => s.rx(RingId(p, a)).scan.Filling?
    case DrainRx(a) => s.rx(RingId(p, a)).scan.Draining?
    case ReclaimFrom(a) => s.tx(RingId(p, a)).scan.Draining?
    case SendOn(a) => s.tx(RingId(p, a)).scan.Filling?
    case ReceiveFrom(q) => !s.queue(Link(q, p)).cons.CIdle?
    case PutTo(q) => !s.queue(Link(p, q)).prod.PIdle?
  }

  predicate Began(s: State, s': State, p: nat, w: Work) {
    !UnderWay(s, p, w) && UnderWay(s', p, w)
  }

  predicate Ended(s: State, s': State, p: nat, w: Work) {
    UnderWay(s, p, w) && !UnderWay(s', p, w)
  }

  const LoopHead: PC := AllocRx(0, false)

  // ---------- the order of the calls ----------

  /** Where main_loop can go from a program point: the calls of main.c:179-214 in their order, each a loop. */
  predicate Follows(c: Config, p: nat, pc: PC, pc': PC) {
    match pc
    case FindRoute => pc' == pc || pc' == LoopHead
    case AllocRx(a, busy) =>
      if a >= c.m then pc' == RecvRx(0, false)
      else if busy then pc' == pc || pc' == AllocRx(a + 1, false) else pc' == AllocRx(a, true)
    case RecvRx(a, busy) =>
      if a >= c.m then pc' == SpliceRx(0)
      else if busy then pc' == pc || pc' == RecvRx(a + 1, false) else pc' == RecvRx(a, true)
    case SpliceRx(a) => pc' == if a >= c.m then Filter(0) else SpliceRx(a + 1)
    case Filter(k) => pc'.Filter? || pc'.DispatchTo?
    case DispatchTo(k, flush) => pc'.DispatchTo? || pc' == Flush(0, false, DispatchPacket) || pc' == RecvQueue(0, false)
    case Flush(q, busy, from) =>
      if q >= c.n then
        match from
        case DispatchPacket => pc' == RecvQueue(0, false)
        case DispatchReclaim => pc' == PutFree
        case EndOfLoop => pc' == LoopHead
      else if q == p then pc' == Flush(q + 1, false, from)
      else if busy then pc' == pc || pc' == Flush(q + 1, false, from) else pc' == Flush(q, true, from)
    case RecvQueue(q, busy) =>
      if q >= c.n then pc' == Classify(0)
      else if q == p then pc' == RecvQueue(q + 1, false)
      else if busy then pc' == pc || pc' == RecvQueue(q + 1, false) else pc' == RecvQueue(q, true)
    case Classify(k) => pc'.Classify? || pc' == ProcessDriver
    case ProcessDriver => pc' == pc || pc' == ProcessDispatch
    case ProcessDispatch => pc' == pc || pc' == ReclaimTx(0, false)
    case ReclaimTx(a, busy) =>
      if a >= c.m then pc'.Return?
      else if busy then pc' == pc || pc' == ReclaimTx(a + 1, false) else pc' == ReclaimTx(a, true)
    case Return(k, flush) => pc'.Return? || pc' == Flush(0, false, DispatchReclaim) || pc' == PutFree
    case PutFree => pc' == pc || pc' == PutReclaim
    case PutReclaim => pc' == pc || pc' == SendTx(0, false)
    case SendTx(a, busy) =>
      if a >= c.m then pc' == Flush(0, false, EndOfLoop)
      else if busy then pc' == pc || pc' == SendTx(a + 1, false) else pc' == SendTx(a, true)
    case Exited => true
  }

  lemma RingStepFollows(c: Config, s: State, p: nat, ch: Choice)
    requires PartsValid(s) && Coherent(s) && PcOk(c, s.pc(p), p) && PcOk(c, Step(c, s, p, ch).pc(p), p)
    requires s.pc(p).AllocRx? || s.pc(p).RecvRx? || s.pc(p).ReclaimTx? || s.pc(p).SendTx?
    ensures Follows(c, p, s.pc(p), Step(c, s, p, ch).pc(p)) && OthersStay(s, Step(c, s, p, ch), p)
  {
    hide PartsValid, Coherent, NicRing.Valid;
  }

  lemma QueueStepFollows(c: Config, s: State, p: nat, ch: Choice)
    requires PartsValid(s) && Coherent(s) && PcOk(c, s.pc(p), p) && PcOk(c, Step(c, s, p, ch).pc(p), p)
    requires s.pc(p).Flush? || s.pc(p).RecvQueue?
    ensures Follows(c, p, s.pc(p), Step(c, s, p, ch).pc(p)) && OthersStay(s, Step(c, s, p, ch), p)
  {
    hide PartsValid, Coherent, LfQueue.Valid;
  }

  lemma ListStepFollows(c: Config, s: State, p: nat, ch: Choice)
    requires PartsValid(s) && Coherent(s) && PcOk(c, s.pc(p), p) && PcOk(c, Step(c, s, p, ch).pc(p), p)
    requires !s.pc(p).AllocRx? && !s.pc(p).RecvRx? && !s.pc(p).ReclaimTx? && !s.pc(p).SendTx?
    requires !s.pc(p).Flush? && !s.pc(p).RecvQueue?
    ensures Follows(c, p, s.pc(p), Step(c, s, p, ch).pc(p)) && OthersStay(s, Step(c, s, p, ch), p)
  {
    hide PartsValid, Coherent;
  }

  /** Every step of a process keeps to that order. */
  lemma StepFollows(c: Config, s: State, p: nat, ch: Choice)
    requires Inv(c, s) && p < c.n && Allowed(c, ch)
    ensures Follows(c, p, s.pc(p), Step(c, s, p, ch).pc(p)) && OthersStay(s, Step(c, s, p, ch), p)
  {
    StepKeeps(c, s, p, ch);
    hide Step, Follows, OthersStay, PartsValid, Coherent, Placed, AllLawful, AllTidy, PcOk;
    assert Walked(c, s, p) && Walked(c, Step(c, s, p, ch), p);
    match s.pc(p)
    case AllocRx(_, _) => RingStepFollows(c, s, p, ch);
    case RecvRx(_, _) => RingStepFollows(c, s, p, ch);
    case ReclaimTx(_, _) => RingStepFollows(c, s, p, ch);
    case SendTx(_, _) => RingStepFollows(c, s, p, ch);
    case Flush(_, _, _) => QueueStepFollows(c, s, p, ch);
    case RecvQueue(_, _) => QueueStepFollows(c, s, p, ch);
    case _ => ListStepFollows(c, s, p, ch);
  }

  // ---------- where a packet goes ----------

  lemma ListPlace(c: Config, s: State, pl: Place, k: nat)
    requires Inv(c, s) && IsList(pl) && k < |s.lists(pl)|
    ensures s.lists(pl)[k] < c.total && s.place(s.lists(pl)[k]) == pl
  {
    hide LfQueue.Valid, LfQueue.InRing, NicRing.Valid, NicRing.Window, Placed, AllLawful, Walked, Coherent, AllTidy;
    assert Contents(s, pl) == s.lists(pl);
    InPlace(c, s, pl, s.lists(pl)[k]);
  }

  /** packet_init_and_filter and dispatch_packet: dropped, staged for the process its flow belongs to, or kept. */
  lemma {:induction false} ReceivedGoes(c: Config, s: State, p: nat, k: nat, ch: Choice)
    requires Inv(c, s) && p < c.n && Allowed(c, ch) && k < |s.lists(FromDriver(p))|
    ensures var x, s' := s.lists(FromDriver(p))[k], Step(c, s, p, ch);
            && (s.pc(p) == Filter(k) ==> s'.place(x) == if ch.yes then FromDriver(p) else FreeHead(p))
            && (s.pc(p).DispatchTo? && s.pc(p).k == k && ch.yes && ch.target != p ==>
                  s'.place(x) == Staged(p, ch.target) && s'.mark(x) == Dispatch)
            && (s.pc(p).DispatchTo? && s.pc(p).k == k && (!ch.yes || ch.target == p) ==>
                  s'.place(x) == FromDriver(p) && s'.mark(x) == s.mark(x))
  {
    ListPlace(c, s, FromDriver(p), k);
    hide PartsValid, Coherent, Placed, AllLawful, Walked, AllTidy;
  }

  /** dispatch_packet for what came from other processes: a returned packet is free again, others are processed. */
  lemma {:induction false} DispatchedGoes(c: Config, s: State, p: nat, k: nat, ch: Choice)
    requires Inv(c, s) && p < c.n && k < |s.lists(FromDispatch(p))| && s.pc(p) == Classify(k)
    ensures var x, s' := s.lists(FromDispatch(p))[k], Step(c, s, p, ch);
            && s.mark(x) in {Dispatch, Reclaim}
            && s'.place(x) == if s.mark(x) == Reclaim then FreeHead(p) else FromDispatch(p)
  {
    ListPlace(c, s, FromDispatch(p), k);
    LawfulAt(c, s, s.lists(FromDispatch(p))[k]);
    hide PartsValid, Coherent, Placed, AllLawful, Walked, AllTidy;
  }

  /** process_packets: a stolen packet is to be sent, another one of this process is free, a foreign one is returned. */
  lemma {:induction false} ProcessedGoes(c: Config, s: State, p: nat, ch: Choice)
    requires Inv(c, s) && p < c.n && Allowed(c, ch)
    ensures var s' := Step(c, s, p, ch);
            && (s.pc(p) == ProcessDriver && s.lists(FromDriver(p)) != [] ==>
                  s'.place(s.lists(FromDriver(p))[0]) == if ch.yes then TxPool(p, ch.adapter) else FreeHead(p))
            && (s.pc(p) == ProcessDispatch && s.lists(FromDispatch(p)) != [] ==>
                  s'.place(s.lists(FromDispatch(p))[0]) == if ch.yes then TxPool(p, ch.adapter) else ToReclaim(p))
  {
    hide PartsValid, Coherent, Placed, AllLawful, Walked, AllTidy;
  }

  /** dispatch_reclaim and packet_zone_reclaim: to the process the packet was allotted to, or free. */
  lemma {:induction false} ReclaimedGoes(c: Config, s: State, p: nat, k: nat, ch: Choice)
    requires Inv(c, s) && p < c.n
    ensures var s', l := Step(c, s, p, ch), s.lists(ToReclaim(p));
            && (s.pc(p).Return? && s.pc(p).k == k && k < |l| ==>
                  s'.place(l[k]) == if c.owner(l[k]) == p then ToReclaim(p) else Staged(p, c.owner(l[k])))
            && (s.pc(p).Return? && s.pc(p).k == k && k < |l| && c.owner(l[k]) != p ==> s'.mark(l[k]) == Reclaim)
            && (s.pc(p) == PutReclaim && l != [] ==> s'.place(l[0]) == Free(p))
            && (s.pc(p) == PutFree && s.lists(FreeHead(p)) != [] ==> s'.place(s.lists(FreeHead(p))[0]) == Free(p))
  {
    if s.pc(p).Return? && k < |s.lists(ToReclaim(p))| { ListPlace(c, s, ToReclaim(p), k); }
    hide PartsValid, Coherent, Placed, AllLawful, Walked, AllTidy;
  }

  /** An rx ring is filled from the free pool until that is empty or one slot is left. */
  lemma {:induction false} FillRxGoes(c: Config, s: State, p: nat, a: nat, ch: Choice)
    requires Inv(c, s) && p < c.n && Allowed(c, ch) && a < c.m && s.pc(p) == AllocRx(a, true)
    ensures Inv(c, Step(c, s, p, ch))
    ensures var s' := Step(c, s, p, ch);
            var r, r' := s.rx(RingId(p, a)), s'.rx(RingId(p, a));
            var l, l' := s.lists(Free(p)), s'.lists(Free(p));
            if l != [] && |NicRing.Window(r)| + 1 < NicRing.Size(r) then
              && s'.pc(p) == s.pc(p)
              && NicRing.Window(r') == NicRing.Window(r) + [l[0]] && l' == l[1..]
            else
              && s'.pc(p) == AllocRx(a + 1, false) && r'.scan == NicRing.Idle
              && NicRing.Window(r') == NicRing.Window(r) && l' == l
  {
    StepKeeps(c, s, p, ch);
    RingsValid(s, p, a);
    ScansOk(s, p, a);
    var r := s.rx(RingId(p, a));
    NicRing.GuardsAre(r);
    NicRing.FillEndKeeps(r);
    if s.lists(Free(p)) != [] && NicRing.HasRoom(r) { NicRing.FillKeeps(r, s.lists(Free(p))[0]); }
    hide PartsValid, Coherent, Placed, AllLawful, Walked, AllTidy, NicRing.Valid, NicRing.Window, NicRing.HasRoom,
         NicRing.CanDrain;
  }

  /** A tx ring is filled from the pool of its adapter, likewise. */
  lemma {:induction false} SendGoes(c: Config, s: State, p: nat, a: nat, ch: Choice)
    requires Inv(c, s) && p < c.n && Allowed(c, ch) && a < c.m && s.pc(p) == SendTx(a, true)
    ensures Inv(c, Step(c, s, p, ch))
    ensures var s' := Step(c, s, p, ch);
            var r, r' := s.tx(RingId(p, a)), s'.tx(RingId(p, a));
            var l, l' := s.lists(TxPool(p, a)), s'.lists(TxPool(p, a));
            if l != [] && |NicRing.Window(r)| + 1 < NicRing.Size(r) then
              && s'.pc(p) == s.pc(p)
              && NicRing.Window(r') == NicRing.Window(r) + [l[0]] && l' == l[1..]
            else
              && s'.pc(p) == SendTx(a + 1, false) && r'.scan == NicRing.Idle
              && NicRing.Window(r') == NicRing.Window(r) && l' == l
  {
    StepKeeps(c, s, p, ch);
    RingsValid(s, p, a);
    ScansOk(s, p, a);
    var r := s.tx(RingId(p, a));
    NicRing.GuardsAre(r);
    NicRing.FillEndKeeps(r);
    if s.lists(TxPool(p, a)) != [] && NicRing.HasRoom(r) { NicRing.FillKeeps(r, s.lists(TxPool(p, a))[0]); }
    hide PartsValid, Coherent, Placed, AllLawful, Walked, AllTidy, NicRing.Valid, NicRing.Window, NicRing.HasRoom,
         NicRing.CanDrain;
  }

  /** An rx ring is drained until it is empty or its oldest descriptor is not finished. */
  lemma {:induction false} DrainRxGoes(c: Config, s: State, p: nat, a: nat, ch: Choice)
    requires Inv(c, s) && p < c.n && Allowed(c, ch) && a < c.m && s.pc(p) == RecvRx(a, true)
    ensures Inv(c, Step(c, s, p, ch))
    ensures var s' := Step(c, s, p, ch);
            var r, r' := s.rx(RingId(p, a)), s'.rx(RingId(p, a));
            var l, l' := s.lists(RxPool(p, a)), s'.lists(RxPool(p, a));
            if NicRing.Window(r) != [] && r.done[r.scan.i] then
              && s'.pc(p) == s.pc(p)
              && |l'| == |l| + 1 && NicRing.Window(r) == [l'[|l|]] + NicRing.Window(r') && l' == l + [l'[|l|]]
            else
              && s'.pc(p) == RecvRx(a + 1, false) && r'.scan == NicRing.Idle
              && NicRing.Window(r') == NicRing.Window(r) && l' == l
  {
    StepKeeps(c, s, p, ch);
    RingsValid(s, p, a);
    ScansOk(s, p, a);
    var r := s.rx(RingId(p, a));
    NicRing.GuardsAre(r);
    NicRing.DrainEndKeeps(r);
    if NicRing.CanDrain(r, false) { NicRing.DrainKeeps(r, false); }
    hide PartsValid, Coherent, Placed, AllLawful, Walked, AllTidy, NicRing.Valid, NicRing.Window, NicRing.HasRoom,
         NicRing.CanDrain;
  }

  /** A tx ring is drained likewise, but for its last packet. */
  lemma {:induction false} ReclaimGoes(c: Config, s: State, p: nat, a: nat, ch: Choice)
    requires Inv(c, s) && p < c.n && Allowed(c, ch) && a < c.m && s.pc(p) == ReclaimTx(a, true)
    ensures Inv(c, Step(c, s, p, ch))
    ensures var s' := Step(c, s, p, ch);
            var r, r' := s.tx(RingId(p, a)), s'.tx(RingId(p, a));
            var l, l' := s.lists(ToReclaim(p)), s'.lists(ToReclaim(p));
            if 1 < |NicRing.Window(r)| && r.done[r.scan.i] then
              && s'.pc(p) == s.pc(p)
              && |l'| == |l| + 1 && NicRing.Window(r) == [l'[|l|]] + NicRing.Window(r') && l' == l + [l'[|l|]]
            else
              && s'.pc(p) == ReclaimTx(a + 1, false) && r'.scan == NicRing.Idle
              && NicRing.Window(r') == NicRing.Window(r) && l' == l
  {
    StepKeeps(c, s, p, ch);
    RingsValid(s, p, a);
    ScansOk(s, p, a);
    var r := s.tx(RingId(p, a));
    NicRing.GuardsAre(r);
    NicRing.DrainEndKeeps(r);
    if NicRing.CanDrain(r, true) { NicRing.DrainKeeps(r, true); }
    hide PartsValid, Coherent, Placed, AllLawful, Walked, AllTidy, NicRing.Valid, NicRing.Window, NicRing.HasRoom,
         NicRing.CanDrain;
  }

  // ---------- one operation in the order of a turn ----------

  /** The program point of an operation; lfq_send_flush is meant at the end of the loop. */
  predicate AtWork(pc: PC, w: Work) {
    match w
    case FillRx(a) => pc == AllocRx(a, true)
    case DrainRx(a) => pc == RecvRx(a, true)
    case ReclaimFrom(a) => pc == ReclaimTx(a, true)
    case SendOn(a) => pc == SendTx(a, true)
    case ReceiveFrom(q) => pc == RecvQueue(q, true)
    case PutTo(q) => pc == Flush(q, true, EndOfLoop)
  }


  /** The turn has not come to the operation yet. */
  predicate Before(pc: PC, w: Work) {
    !pc.FindRoute? && !pc.Exited? &&
    match w
    case FillRx(a) => pc.AllocRx? && (pc.a < a || (pc.a == a && !pc.busy))
    case DrainRx(a) => pc.AllocRx? || (pc.RecvRx? && (pc.a < a || (pc.a == a && !pc.busy)))
    case ReceiveFrom(q) =>
      || pc.AllocRx? || pc.RecvRx? || pc.SpliceRx? || Dispatching(pc)
      || (pc.RecvQueue? && (pc.q < q || (pc.q == q && !pc.busy)))
    case ReclaimFrom(a) =>
      || pc.AllocRx? || pc.RecvRx? || pc.SpliceRx? || Dispatching(pc) || pc.RecvQueue? || pc.Classify?
      || pc.ProcessDriver? || pc.ProcessDispatch?
      || (pc.ReclaimTx? && (pc.a < a || (pc.a == a && !pc.busy)))
    case SendOn(a) =>
      if pc.SendTx? then pc.a < a || (pc.a == a && !pc.busy) else !(pc.Flush? && pc.after.EndOfLoop?)
    case PutTo(q) => pc.Flush? && pc.after.EndOfLoop? ==> pc.q < q || (pc.q == q && !pc.busy)
  }

  lemma NearerRx(c: Config, p: nat, pc: PC, pc': PC, w: Work)
    requires Follows(c, p, pc, pc') && Before(pc, w) && Due(c, p, w) && PcOk(c, pc', p) && (w.FillRx? || w.DrainRx?)
    ensures pc' != LoopHead
    ensures Before(pc', w) || AtWork(pc', w)
    ensures AtWork(pc', w) ==> !AtWork(pc, w) && (w.PutTo? ==> !Producing(pc, w.q))
  {
  }

  lemma NearerReclaim(c: Config, p: nat, pc: PC, pc': PC, w: Work)
    requires Follows(c, p, pc, pc') && Before(pc, w) && Due(c, p, w) && PcOk(c, pc', p) && w.ReclaimFrom?
    ensures pc' != LoopHead
    ensures Before(pc', w) || AtWork(pc', w)
    ensures AtWork(pc', w) ==> !AtWork(pc, w) && (w.PutTo? ==> !Producing(pc, w.q))
  {
  }

  lemma NearerSend(c: Config, p: nat, pc: PC, pc': PC, w: Work)
    requires Follows(c, p, pc, pc') && Before(pc, w) && Due(c, p, w) && PcOk(c, pc', p) && w.SendOn?
    ensures pc' != LoopHead
    ensures Before(pc', w) || AtWork(pc', w)
    ensures AtWork(pc', w) ==> !AtWork(pc, w) && (w.PutTo? ==> !Producing(pc, w.q))
  {
  }

  lemma NearerQueue(c: Config, p: nat, pc: PC, pc': PC, w: Work)
    requires Follows(c, p, pc, pc') && Before(pc, w) && Due(c, p, w) && PcOk(c, pc', p) && (w.ReceiveFrom? || w.PutTo?)
    ensures pc' != LoopHead
    ensures Before(pc', w) || AtWork(pc', w)
    ensures AtWork(pc', w) ==> !AtWork(pc, w) && (w.PutTo? ==> !Producing(pc, w.q))
  {
  }

  /** The turn cannot pass an operation that is due: it comes nearer, or begins it. */
  lemma Nearer(c: Config, p: nat, pc: PC, pc': PC, w: Work)
    requires Follows(c, p, pc, pc') && Before(pc, w) && Due(c, p, w) && PcOk(c, pc', p)
    ensures pc' != LoopHead
    ensures Before(pc', w) || AtWork(pc', w)
    ensures AtWork(pc', w) ==> !AtWork(pc, w) && (w.PutTo? ==> !Producing(pc, w.q))
  {
    hide Follows, Before, Due, PcOk, AtWork, Producing;
    match w
    case FillRx(_) => NearerRx(c, p, pc, pc', w);
    case DrainRx(_) => NearerRx(c, p, pc, pc', w);
    case ReclaimFrom(_) => NearerReclaim(c, p, pc, pc', w);
    case SendOn(_) => NearerSend(c, p, pc, pc', w);
    case ReceiveFrom(_) => NearerQueue(c, p, pc, pc', w);
    case PutTo(_) => NearerQueue(c, p, pc, pc', w);
  }

  /** What a ring or queue says agrees with the program point. */
  lemma WorkIs(c: Config, s: State, p: nat, w: Work)
    requires Inv(c, s)
    ensures AtWork(s.pc(p), w) ==> UnderWay(s, p, w)
    ensures UnderWay(s, p, w) ==> AtWork(s.pc(p), w) || (w.PutTo? && Producing(s.pc(p), w.q))
  {
    hide PartsValid, Placed, AllLawful, AllTidy, Walked;
    match w
    case FillRx(a) => ScansOk(s, p, a);
    case DrainRx(a) => ScansOk(s, p, a);
    case ReclaimFrom(a) => ScansOk(s, p, a);
    case SendOn(a) => ScansOk(s, p, a);
    case ReceiveFrom(q) => LinksOk(s, p, q);
    case PutTo(q) => LinksOk(s, p, q);
  }

  // ---------- whole turns ----------

  ghost function Next(c: Config, s: State, e: Event): State
    requires Inv(c, s)
  {
    Apply(c, s, e)
  }

  /** The states that a run goes through. */
  ghost predicate Trace(c: Config, ts: seq<State>, es: seq<Event>) {
    && |ts| == |es| + 1 && (forall k | 0 <= k < |ts| :: Inv(c, ts[k]))
    && forall k {:trigger es[k]} | 0 <= k < |es| :: ts[k + 1] == Next(c, ts[k], es[k])
  }

  ghost predicate Started(ts: seq<State>, p: nat, w: Work, k: nat) {
    exists i {:trigger ts[i]} :: 0 <= i < k && k < |ts| && Began(ts[i], ts[i + 1], p, w)
  }

  /** The operation began and ended in the first k steps. */
  ghost predicate Served(ts: seq<State>, p: nat, w: Work, k: nat) {
    exists i, j {:trigger ts[i], ts[j]} ::
      && 0 <= i < j < k && k < |ts|
      && Began(ts[i], ts[i + 1], p, w) && Ended(ts[j], ts[j + 1], p, w)
  }

  ghost predicate Stayed(ts: seq<State>, p: nat, k: nat) {
    forall j | 0 <= j <= k && k < |ts| :: ts[j].pc(p) == LoopHead
  }

  /** Where p is with the operation: done in this or an earlier turn, at it, or still before it in the first turn. */
  ghost predicate Account(ts: seq<State>, p: nat, w: Work, k: nat)
    requires k < |ts|
  {
    || Served(ts, p, w, k)
    || (Started(ts, p, w, k) && AtWork(ts[k].pc(p), w))
    || (Before(ts[k].pc(p), w) && (ts[k].pc(p) == LoopHead ==> Stayed(ts, p, k)))
  }

  /** One event more. */
  lemma PcAfter(c: Config, s: State, p: nat, e: Event)
    requires Inv(c, s) && p < c.n && s.pc(p) != Exited
    ensures var s' := Next(c, s, e); s'.pc(p) == s.pc(p) || Follows(c, p, s.pc(p), s'.pc(p))
  {
    hide PartsValid, Coherent, Placed, AllLawful, AllTidy, Walked, Step, Follows;
    if Enabled(c, s, e) && e.ProcessMoves? {
      StepFollows(c, s, e.p, e.ch);
      assert e.p != p ==> Step(c, s, e.p, e.ch).pc(p) == s.pc(p);
    }
  }

  lemma StartedAt(ts: seq<State>, p: nat, w: Work, k: nat)
    requires k + 1 < |ts| && Began(ts[k], ts[k + 1], p, w)
    ensures Started(ts, p, w, k + 1)
  {
    hide Began;
  }

  lemma StartedLater(ts: seq<State>, p: nat, w: Work, k: nat)
    requires k + 1 < |ts| && Started(ts, p, w, k)
    ensures Started(ts, p, w, k + 1)
  {
    hide Began;
  }

  lemma ServedAt(ts: seq<State>, p: nat, w: Work, k: nat)
    requires k + 1 < |ts| && Started(ts, p, w, k) && Ended(ts[k], ts[k + 1], p, w)
    ensures Served(ts, p, w, k + 1)
  {
    hide Began, Ended;
    var i :| 0 <= i < k && Began(ts[i], ts[i + 1], p, w);
  }

  lemma ServedLater(ts: seq<State>, p: nat, w: Work, k: nat)
    requires k + 1 < |ts| && Served(ts, p, w, k)
    ensures Served(ts, p, w, k + 1)
  {
    hide Began, Ended;
  }

  /** An operation that the next step does not go on with ends there. */
  lemma WorkEnds(c: Config, s: State, s': State, p: nat, w: Work)
    requires Inv(c, s) && Inv(c, s') && AtWork(s.pc(p), w) && !AtWork(s'.pc(p), w) && Due(c, p, w)
    requires s'.pc(p) == s.pc(p) || Follows(c, p, s.pc(p), s'.pc(p))
    ensures Ended(s, s', p, w)
  {
    WorkIs(c, s, p, w);
    WorkIs(c, s', p, w);
    hide Inv;
  }

  lemma WorkBegins(c: Config, s: State, s': State, p: nat, w: Work)
    requires Inv(c, s) && Inv(c, s') && AtWork(s'.pc(p), w)
    requires !AtWork(s.pc(p), w) && (w.PutTo? ==> !Producing(s.pc(p), w.q))
    ensures Began(s, s', p, w)
  {
    WorkIs(c, s, p, w);
    WorkIs(c, s', p, w);
    hide Inv;
  }

  lemma {:induction false} Progress(c: Config, ts: seq<State>, es: seq<Event>, p: nat, w: Work, k: nat)
    requires Trace(c, ts, es) && p < c.n && Due(c, p, w) && ts[0].pc(p) == LoopHead && k <= |es|
    ensures Account(ts, p, w, k)
  {
    hide Inv, Follows, Served, Started, Began, Ended, UnderWay, Due, AtWork, PcOk;
    if k > 0 {
      Progress(c, ts, es, p, w, k - 1);
      var s, s' := ts[k - 1], ts[k];
      assert s' == Next(c, s, es[k - 1]);
      NeverExits(c, s, p);
      NeverExits(c, s', p);
      PcAfter(c, s, p, es[k - 1]);
      OneMoreStep(c, ts, p, w, k - 1);
    } else {
      AtHead(c, p, w);
    }
  }

  lemma AtHead(c: Config, p: nat, w: Work)
    requires Due(c, p, w)
    ensures Before(LoopHead, w)
  {
  }

  lemma NeverExits(c: Config, s: State, p: nat)
    requires Inv(c, s)
    ensures s.pc(p) != Exited && PcOk(c, s.pc(p), p)
  {
    hide PartsValid, Coherent, Placed, AllLawful, AllTidy;
    assert Walked(c, s, p);
  }

  lemma {:induction false} OneMoreStep(c: Config, ts: seq<State>, p: nat, w: Work, k: nat)
    requires k + 1 < |ts| && Inv(c, ts[k]) && Inv(c, ts[k + 1]) && Due(c, p, w) && Account(ts, p, w, k)
    requires ts[k + 1].pc(p) == ts[k].pc(p) || Follows(c, p, ts[k].pc(p), ts[k + 1].pc(p))
    ensures Account(ts, p, w, k + 1)
  {
    NeverExits(c, ts[k + 1], p);
    hide Inv, Follows, Served, Started, Began, Ended, UnderWay, Due, AtWork, PcOk, Before, Producing;
    var s, s' := ts[k], ts[k + 1];
    if Served(ts, p, w, k) {
      ServedLater(ts, p, w, k);
    } else if Started(ts, p, w, k) && AtWork(s.pc(p), w) {
      StartedLater(ts, p, w, k);
      if !AtWork(s'.pc(p), w) {
        WorkEnds(c, s, s', p, w);
        ServedAt(ts, p, w, k);
      }
    } else if s'.pc(p) != s.pc(p) {
      Nearer(c, p, s.pc(p), s'.pc(p), w);
      if AtWork(s'.pc(p), w) {
        WorkBegins(c, s, s', p, w);
        StartedAt(ts, p, w, k);
      }
    }
  }

  /** How many processes and adapters there are, and what init is called with. */
  datatype Setup = Setup(n: nat, m: nat, zone: nat, ringSize: nat, queueMemory: seq<nat>) {
    predicate Valid() {
      0 < zone && 0 < ringSize && 0 < |queueMemory|
    }

    function Processes(): Config
      requires Valid()
    {
      ConfigOf(n, m, zone)
    }
  }

  /** The state after the first k events from init. */
  ghost function After(u: Setup, events: seq<Event>, k: nat): State
    requires u.Valid() && k <= |events|
  {
    InitInv(u.n, u.m, u.zone, u.ringSize, u.queueMemory);
    Run(u.Processes(), Init(u.n, u.m, u.zone, u.ringSize, u.queueMemory), events[..k])
  }

  lemma AfterInv(u: Setup, events: seq<Event>, k: nat)
    requires u.Valid() && k <= |events|
    ensures Inv(u.Processes(), After(u, events, k))
  {
    hide Inv, Init, ConfigOf;
    InitInv(u.n, u.m, u.zone, u.ringSize, u.queueMemory);
  }

  lemma AfterNext(u: Setup, events: seq<Event>, k: nat)
    requires u.Valid() && k < |events|
    ensures Inv(u.Processes(), After(u, events, k))
    ensures After(u, events, k + 1) == Next(u.Processes(), After(u, events, k), events[k])
  {
    hide Inv, Apply, Init, ConfigOf;
    AfterInv(u, events, k);
    assert events[..k + 1][..k] == events[..k];
  }

  ghost function States(u: Setup, events: seq<Event>, from: nat, to: nat): (ts: seq<State>)
    requires u.Valid() && from <= to <= |events|
    ensures |ts| == to - from + 1
  {
    seq(to - from + 1, k requires 0 <= k <= to - from => After(u, events, from + k))
  }

  lemma {:induction false} StatesTrace(u: Setup, events: seq<Event>, from: nat, to: nat)
    requires u.Valid() && from <= to <= |events|
    ensures Trace(u.Processes(), States(u, events, from, to), events[from..to])
    ensures forall k | 0 <= k <= to - from :: States(u, events, from, to)[k] == After(u, events, from + k)
  {
    hide After, Inv, Next, ConfigOf;
    var c, ts, es := u.Processes(), States(u, events, from, to), events[from..to];
    forall k | 0 <= k < |ts| ensures Inv(c, ts[k]) {
      AfterInv(u, events, from + k);
    }
    forall k {:trigger es[k]} | 0 <= k < |es| ensures ts[k + 1] == Next(c, ts[k], es[k]) {
      AfterNext(u, events, from + k);
      assert ts[k + 1] == After(u, events, from + k + 1);
    }
  }

  /**
   * In every run of the system, between two visits of process p to the head of its loop with a step in between, p
   * begins and ends the operation on every rx ring, filling and draining, on every tx ring, reclaiming and sending,
   * and on every queue from and to another process.
   */
  lemma {:induction false} EveryTurnServesAll(u: Setup, events: seq<Event>, p: nat, w: Work, from: nat, mid: nat,
                                              to: nat)
    returns (i: nat, j: nat)
    requires u.Valid() && from < mid < to <= |events| && p < u.n && Due(u.Processes(), p, w)
    requires After(u, events, from).pc(p) == LoopHead && After(u, events, to).pc(p) == LoopHead
    requires After(u, events, mid).pc(p) != LoopHead
    ensures from <= i < j < to
    ensures Began(After(u, events, i), After(u, events, i + 1), p, w)
    ensures Ended(After(u, events, j), After(u, events, j + 1), p, w)
  {
    hide After, Inv, Due, Began, Ended, Next, States, Trace, Started, Served, AtWork, Before;
    var ts, es := States(u, events, from, to), events[from..to];
    StatesTrace(u, events, from, to);
    assert u.Processes().n == u.n;
    TraceServes(u.Processes(), ts, es, p, w, mid - from);
    i, j := ServedMeans(ts, p, w, to - from);
    assert ts[i] == After(u, events, from + i) && ts[i + 1] == After(u, events, from + i + 1);
    assert ts[j] == After(u, events, from + j) && ts[j + 1] == After(u, events, from + j + 1);
    i, j := from + i, from + j;
  }

  lemma {:induction false} TraceServes(c: Config, ts: seq<State>, es: seq<Event>, p: nat, w: Work, mid: nat)
    requires Trace(c, ts, es) && p < c.n && Due(c, p, w) && mid < |es|
    requires ts[0].pc(p) == ts[|es|].pc(p) == LoopHead && ts[mid].pc(p) != LoopHead
    ensures Served(ts, p, w, |es|)
  {
    hide Inv, Due, Served, Started, Next, Began, Ended;
    Progress(c, ts, es, p, w, |es|);
    NotAtWork(w);
  }

  lemma ServedMeans(ts: seq<State>, p: nat, w: Work, k: nat) returns (i: nat, j: nat)
    requires Served(ts, p, w, k)
    ensures i < j < k < |ts| && Began(ts[i], ts[i + 1], p, w) && Ended(ts[j], ts[j + 1], p, w)
  {
    hide Began, Ended;
    i, j :| 0 <= i < j < k && k < |ts| && Began(ts[i], ts[i + 1], p, w) && Ended(ts[j], ts[j + 1], p, w);
  }

  lemma NotAtWork(w: Work)
    ensures !AtWork(LoopHead, w)
  {
  }
}
