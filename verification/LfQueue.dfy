/** uspace/src/lf_queue.c: the single-producer single-consumer ring between two processes, one shared
    access per step.  The producer's and the consumer's program points and local variables are part of
    the state, so a run is any interleaving of their steps. */
module LfQueue {
  import opened Cyclic

  /** __put_packet_to_queue: idle, after reading `head`, in the fill loop, before the CAS on `tail`,
      and the exit(-1) branch. */
  datatype Producer =
    | PIdle
    | PGotHead(head: nat)
    | PFilling(head: nat, tail: nat, i: nat, next: nat, count: nat)
    | PPublish(head: nat, tail: nat, i: nat)
    | PExited

  /** __get_packet_from_queue, likewise. */
  datatype Consumer =
    | CIdle
    | CGotHead(head: nat)
    | CReading(head: nat, tail: nat, i: nat, count: nat)
    | CPublish(head: nat, i: nat)
    | CExited

  datatype Queue<T> = Queue(head: nat, tail: nat, desc: seq<T>, staged: seq<T>, prod: Producer, cons: Consumer)

  function Size<T>(q: Queue<T>): nat { |q.desc| }

  // ---------- the steps ----------

  /** lfq_send: put a packet on the staging list. */
  function Send<T>(q: Queue<T>, x: T): Queue<T> {
    q.(staged := q.staged + [x])
  }

  function ProducerBegin<T>(q: Queue<T>): Queue<T> {
    q.(prod := PGotHead(q.head))
  }

  /** One shared access of __put_packet_to_queue. */
  function ProducerStep<T>(q: Queue<T>): Queue<T>
    requires Valid(q)
  {
    match q.prod
    case PIdle => q
    case PGotHead(h) =>
      if Next(q.tail, Size(q)) == h then q.(prod := PIdle)
      else q.(prod := PFilling(h, q.tail, q.tail, Next(q.tail, Size(q)), 0))
    case PFilling(h, t, i, next, count) =>
      if q.staged == [] then
        q.(prod := if count > 0 then PPublish(h, t, i) else PIdle)
      else
        var next' := Next(next, Size(q));
        q.(desc := q.desc[i := q.staged[0]], staged := q.staged[1..],
           prod := if next' != h then PFilling(h, t, next, next', count + 1) else PPublish(h, t, next))
    case PPublish(h, t, i) =>
      if q.tail == t then q.(tail := i, prod := PIdle) else q.(prod := PExited)
    case PExited => q
  }

  function ConsumerBegin<T>(q: Queue<T>): Queue<T> {
    q.(cons := CGotHead(q.head))
  }

  /** The packets this consumer step moves to the receiver's list: one when a descriptor is read. */
  function Delivered<T>(q: Queue<T>): seq<T>
    requires Valid(q)
  {
    if q.cons.CReading? && q.cons.i != q.cons.tail then [q.desc[q.cons.i]] else []
  }

  /** One shared access of __get_packet_from_queue. */
  function ConsumerStep<T>(q: Queue<T>): Queue<T>
    requires Valid(q)
  {
    match q.cons
    case CIdle => q
    case CGotHead(h) => q.(cons := CReading(h, q.tail, h, 0))
    case CReading(h, t, i, count) =>
      if i != t then q.(cons := CReading(h, t, Next(i, Size(q)), count + 1))
      else q.(cons := if count > 0 then CPublish(h, i) else CIdle)
    case CPublish(h, i) =>
      if q.head == h then q.(head := i, cons := CIdle) else q.(cons := CExited)
    case CExited => q
  }

  // ---------- the protocol's invariant ----------

  /** Where the producer will write next. */
  function WritePos<T>(q: Queue<T>): nat {
    match q.prod
    case PFilling(_, _, i, _, _) => i
    case PPublish(_, _, i) => i
    case _ => q.tail
  }

  /** Where the consumer will read next. */
  function ReadPos<T>(q: Queue<T>): nat {
    match q.cons
    case CReading(_, _, i, _) => i
    case CPublish(_, i) => i
    case _ => q.head
  }

  /** The head the producer works with; it may lag behind the real one. */
  function SeenHead<T>(q: Queue<T>): nat {
    match q.prod
    case PGotHead(h) => h
    case PFilling(h, _, _, _, _) => h
    case PPublish(h, _, _) => h
    case _ => q.head
  }

  /** The tail the consumer works with; it may lag behind the real one. */
  function SeenTail<T>(q: Queue<T>): nat {
    match q.cons
    case CReading(_, t, _, _) => t
    case CPublish(_, i) => i
    case _ => q.tail
  }

  /** All indices are slots, both local copies agree with what only their owner writes, and walking
      forward from the head the producer has seen one meets, in this order, the real head, the next slot
      to read, the tail the consumer has seen, the real tail, and the next slot to write. */
  ghost predicate Valid<T>(q: Queue<T>) {
    && 0 < Size(q)
    && q.head < Size(q) && q.tail < Size(q)
    && WritePos(q) < Size(q) && ReadPos(q) < Size(q) && SeenHead(q) < Size(q) && SeenTail(q) < Size(q)
    && !q.prod.PExited? && !q.cons.CExited?
    && (q.prod.PFilling? ==>
          && q.prod.tail == q.tail
          && q.prod.count == Off(q.tail, q.prod.i, Size(q))
          && q.prod.next == Next(q.prod.i, Size(q)) && q.prod.next != q.prod.head)
    && (q.prod.PPublish? ==> q.prod.tail == q.tail && q.prod.i != q.tail)
    && (q.cons.CGotHead? ==> q.cons.head == q.head)
    && (q.cons.CReading? ==> q.cons.head == q.head && q.cons.count == Off(q.head, q.cons.i, Size(q)))
    && (q.cons.CPublish? ==> q.cons.head == q.head && q.cons.i != q.head)
    && Off(SeenHead(q), q.head, Size(q)) <= Off(SeenHead(q), ReadPos(q), Size(q))
    && Off(SeenHead(q), ReadPos(q), Size(q)) <= Off(SeenHead(q), SeenTail(q), Size(q))
    && Off(SeenHead(q), SeenTail(q), Size(q)) <= Off(SeenHead(q), q.tail, Size(q))
    && Off(SeenHead(q), q.tail, Size(q)) <= Off(SeenHead(q), WritePos(q), Size(q))
  }

  /** The packets in the ring: written by the producer, published or not, and not yet read. */
  function InRing<T>(q: Queue<T>): seq<T>
    requires Valid(q)
  {
    Slots(q.desc, ReadPos(q), WritePos(q))
  }

  lemma SendKeeps<T>(q: Queue<T>, x: T)
    requires Valid(q)
    ensures Valid(Send(q, x)) && InRing(Send(q, x)) == InRing(q) && Size(Send(q, x)) == Size(q)
  {
  }

  lemma ProducerBeginKeeps<T>(q: Queue<T>)
    requires Valid(q) && q.prod.PIdle?
    ensures Valid(ProducerBegin(q)) && InRing(ProducerBegin(q)) == InRing(q) && Size(ProducerBegin(q)) == Size(q)
  {
  }

  lemma ConsumerBeginKeeps<T>(q: Queue<T>)
    requires Valid(q) && q.cons.CIdle?
    ensures Valid(ConsumerBegin(q)) && InRing(ConsumerBegin(q)) == InRing(q) && Size(ConsumerBegin(q)) == Size(q)
  {
  }

  lemma ProducerFillKeeps<T>(q: Queue<T>)
    requires Valid(q) && q.prod.PFilling? && q.staged != []
    ensures Valid(ProducerStep(q))
    ensures InRing(ProducerStep(q)) == InRing(q) + [q.staged[0]]
  {
    var q' := ProducerStep(q);
    assert WritePos(q') == Next(q.prod.i, Size(q)) && ReadPos(q') == ReadPos(q) && SeenHead(q') == SeenHead(q);
    SlotsPush(q.desc, ReadPos(q), q.prod.i, q.staged[0]);
  }

  lemma GotHeadKeeps<T>(q: Queue<T>)
    requires Valid(q) && q.prod.PGotHead?
    ensures Valid(ProducerStep(q)) && InRing(ProducerStep(q)) == InRing(q)
  {
    hide Slots;
    assert WritePos(ProducerStep(q)) == WritePos(q) && ReadPos(ProducerStep(q)) == ReadPos(q);
    if Next(q.tail, Size(q)) == q.prod.head { RebaseAll(q); }
  }

  lemma NoneLeftKeeps<T>(q: Queue<T>)
    requires Valid(q) && q.prod.PFilling? && q.staged == []
    ensures Valid(ProducerStep(q)) && InRing(ProducerStep(q)) == InRing(q)
  {
    hide Slots;
    assert WritePos(ProducerStep(q)) == WritePos(q) && ReadPos(ProducerStep(q)) == ReadPos(q);
    if q.prod.count == 0 { RebaseAll(q); }
  }

  lemma PublishKeeps<T>(q: Queue<T>)
    requires Valid(q) && q.prod.PPublish?
    ensures Valid(ProducerStep(q)) && InRing(ProducerStep(q)) == InRing(q)
  {
    hide Slots;
    var q' := ProducerStep(q);
    assert WritePos(q') == WritePos(q) && ReadPos(q') == ReadPos(q);
    RebaseAll(q);
  }

  /** The order of the indices seen from the real head, once the producer has let go of the one it has read. */
  lemma RebaseAll<T>(q: Queue<T>)
    requires Valid(q)
    ensures var n := Size(q);
            Off(q.head, ReadPos(q), n) <= Off(q.head, SeenTail(q), n) <= Off(q.head, q.tail, n) <=
            Off(q.head, WritePos(q), n)
  {
    Rebase(SeenHead(q), q.head, ReadPos(q), Size(q));
    Rebase(SeenHead(q), q.head, SeenTail(q), Size(q));
    Rebase(SeenHead(q), q.head, q.tail, Size(q));
    Rebase(SeenHead(q), q.head, WritePos(q), Size(q));
  }

  lemma ProducerOtherKeeps<T>(q: Queue<T>)
    requires Valid(q) && !(q.prod.PFilling? && q.staged != [])
    ensures Valid(ProducerStep(q))
    ensures InRing(ProducerStep(q)) == InRing(q)
  {
    hide Valid, InRing;
    match q.prod
    case PIdle =>
    case PGotHead(_) => GotHeadKeeps(q);
    case PFilling(_, _, _, _, _) => NoneLeftKeeps(q);
    case PPublish(_, _, _) => PublishKeeps(q);
    case PExited =>
  }

  lemma ConsumerReadValid<T>(q: Queue<T>)
    requires Valid(q) && q.cons.CReading? && q.cons.i != q.cons.tail
    ensures Valid(ConsumerStep(q))
    ensures q.cons.i < Size(q) && WritePos(q) < Size(q) && q.cons.i != WritePos(q)
  {
    var n, i := Size(q), q.cons.i;
    OffDiffers(SeenHead(q), i, q.cons.tail, n);
    OffNext(SeenHead(q), i, q.cons.tail, n);
    Rebase(SeenHead(q), q.head, i, n);
    Rebase(SeenHead(q), q.head, Next(i, n), n);
    hide Next, Off;
  }

  lemma ConsumerReadKeeps<T>(q: Queue<T>)
    requires Valid(q) && q.cons.CReading? && q.cons.i != q.cons.tail
    ensures Valid(ConsumerStep(q))
    ensures InRing(q) == [q.desc[q.cons.i]] + InRing(ConsumerStep(q))
  {
    hide Valid, Slots;
    ConsumerReadValid(q);
    SlotsPop(q.desc, q.cons.i, WritePos(q));
  }

  lemma ConsumerOtherKeeps<T>(q: Queue<T>)
    requires Valid(q) && !(q.cons.CReading? && q.cons.i != q.cons.tail)
    ensures Valid(ConsumerStep(q))
    ensures InRing(ConsumerStep(q)) == InRing(q)
  {
    var q' := ConsumerStep(q);
    assert WritePos(q') == WritePos(q) && ReadPos(q') == ReadPos(q);
  }

  /** A producer step never takes the exit branch, never overwrites an unread slot, and moves at most one
      packet from the front of the staging list to the back of the ring. */
  lemma ProducerStepKeeps<T>(q: Queue<T>)
    requires Valid(q)
    ensures Valid(ProducerStep(q))
    ensures InRing(ProducerStep(q)) + ProducerStep(q).staged == InRing(q) + q.staged
    ensures InRing(q) <= InRing(ProducerStep(q))
    ensures ProducerStep(q).cons == q.cons && Size(ProducerStep(q)) == Size(q)
  {
    if q.prod.PFilling? && q.staged != [] {
      ProducerFillKeeps(q);
    } else {
      ProducerOtherKeeps(q);
    }
  }

  /** A consumer step never takes the exit branch and delivers packets from the front of the ring. */
  lemma ConsumerStepKeeps<T>(q: Queue<T>)
    requires Valid(q)
    ensures Valid(ConsumerStep(q))
    ensures Delivered(q) + InRing(ConsumerStep(q)) == InRing(q)
    ensures ConsumerStep(q).prod == q.prod && ConsumerStep(q).staged == q.staged
    ensures Size(ConsumerStep(q)) == Size(q)
  {
    if q.cons.CReading? && q.cons.i != q.cons.tail {
      ConsumerReadKeeps(q);
    } else {
      ConsumerOtherKeeps(q);
    }
  }

  /** Publishing only moves the tail away from the head. */
  lemma TailAdvances<T>(q: Queue<T>)
    requires Valid(q)
    ensures ProducerStep(q).head == q.head
    ensures ProducerStep(q).tail < Size(q) && Off(q.head, q.tail, Size(q)) <= Off(q.head, ProducerStep(q).tail, Size(q))
  {
    Rebase(SeenHead(q), q.head, q.tail, Size(q));
    Rebase(SeenHead(q), q.head, WritePos(q), Size(q));
  }

  // ---------- what Valid says at the program points, for proofs that hide it ----------

  lemma IdleFacts<T>(q: Queue<T>)
    requires Valid(q)
    ensures q.head < Size(q) && q.tail < Size(q)
    ensures q.prod.PPublish? ==> q.prod.tail == q.tail && q.prod.i < Size(q)
    ensures q.cons.CPublish? ==> q.cons.head == q.head && q.cons.i < Size(q)
    ensures !q.prod.PExited? && !q.cons.CExited?
  {
  }

  lemma FillingFacts<T>(q: Queue<T>)
    requires Valid(q) && q.prod.PFilling?
    ensures q.head < Size(q) && q.tail < Size(q) && q.prod.i < Size(q) && q.prod.head < Size(q)
    ensures q.prod.tail == q.tail && q.prod.next == Next(q.prod.i, Size(q))
    ensures q.prod.count < Size(q) && q.prod.i == At(q.tail, q.prod.count, Size(q))
    ensures q.prod.count + Off(q.prod.head, q.tail, Size(q)) == Off(q.prod.head, q.prod.i, Size(q)) < Size(q) - 1
  {
  }

  // ---------- whole runs ----------

  datatype Event<T> = SendPacket(x: T) | ProducerMoves | ConsumerMoves

  /** The queue with everything ever passed to lfq_send and everything ever received. */
  datatype History<T> = History(q: Queue<T>, sent: seq<T>, received: seq<T>)

  /** lfq_queue_create_init; the ring's memory is whatever it was. */
  function Init<T>(memory: seq<T>): (q: Queue<T>)
  {
    Queue(0, 0, memory, [], PIdle, CIdle)
  }

  /** A side that is idle may start its operation; a side inside its operation does its next access. */
  function Apply<T>(s: History<T>, e: Event<T>): History<T>
    requires Valid(s.q)
  {
    match e
    case SendPacket(x) => History(Send(s.q, x), s.sent + [x], s.received)
    case ProducerMoves =>
      s.(q := if s.q.prod.PIdle? then ProducerBegin(s.q) else ProducerStep(s.q))
    case ConsumerMoves =>
      if s.q.cons.CIdle? then s.(q := ConsumerBegin(s.q))
      else History(ConsumerStep(s.q), s.sent, s.received + Delivered(s.q))
  }

  ghost predicate Fifo<T>(s: History<T>) {
    && Valid(s.q)
    && s.received + InRing(s.q) + s.q.staged == s.sent
  }

  lemma SendKeepsFifo<T>(s: History<T>, x: T)
    requires Fifo(s)
    ensures Fifo(Apply(s, SendPacket(x))) && Size(Apply(s, SendPacket(x)).q) == Size(s.q)
  {
    SendKeeps(s.q, x);
    calc {
      s.received + InRing(Send(s.q, x)) + (s.q.staged + [x]);
      s.received + InRing(s.q) + s.q.staged + [x];
      s.sent + [x];
    }
  }

  lemma ProducerKeepsFifo<T>(s: History<T>)
    requires Fifo(s)
    ensures Fifo(Apply(s, ProducerMoves)) && Size(Apply(s, ProducerMoves).q) == Size(s.q)
  {
    if s.q.prod.PIdle? {
      ProducerBeginKeeps(s.q);
    } else {
      ProducerStepKeeps(s.q);
      Associate(s.received, InRing(s.q), s.q.staged);
      Associate(s.received, InRing(ProducerStep(s.q)), ProducerStep(s.q).staged);
    }
  }

  lemma ConsumerKeepsFifo<T>(s: History<T>)
    requires Fifo(s)
    ensures Fifo(Apply(s, ConsumerMoves)) && Size(Apply(s, ConsumerMoves).q) == Size(s.q)
  {
    if s.q.cons.CIdle? {
      ConsumerBeginKeeps(s.q);
    } else {
      ConsumerStepKeeps(s.q);
      Associate(s.received, Delivered(s.q), InRing(ConsumerStep(s.q)));
    }
  }

  lemma Associate<T>(a: seq<T>, b: seq<T>, c: seq<T>)
    ensures a + b + c == a + (b + c)
  {
  }

  lemma ApplyKeepsFifo<T>(s: History<T>, e: Event<T>)
    requires Fifo(s)
    ensures Fifo(Apply(s, e))
    ensures Size(Apply(s, e).q) == Size(s.q)
  {
    match e
    case SendPacket(x) => SendKeepsFifo(s, x);
    case ProducerMoves => ProducerKeepsFifo(s);
    case ConsumerMoves => ConsumerKeepsFifo(s);
  }

  /** The state after a run from an initialised queue. */
  function Run<T>(memory: seq<T>, events: seq<Event<T>>): (s: History<T>)
    requires 0 < |memory|
    ensures Fifo(s) && Size(s.q) == |memory|
    decreases |events|
  {
    if events == [] then
      History(Init(memory), [], [])
    else
      var s0 := Run(memory, events[..|events| - 1]);
      ApplyKeepsFifo(s0, events[|events| - 1]);
      Apply(s0, events[|events| - 1])
  }

  /** Every interleaving of sends, producer accesses and consumer accesses refines a FIFO: nothing is lost,
      duplicated or reordered, no exit(-1) is taken, and one slot always stays free. */
  lemma EveryRunIsFifo<T>(memory: seq<T>, events: seq<Event<T>>)
    requires 0 < |memory|
    ensures var s := Run(memory, events);
            && s.received + InRing(s.q) + s.q.staged == s.sent
            && s.received <= s.sent
            && !s.q.prod.PExited? && !s.q.cons.CExited?
            && |InRing(s.q)| <= Off(s.q.head, WritePos(s.q), Size(s.q)) <= |memory| - 1
  {
    var s := Run(memory, events);
    assert s.received + (InRing(s.q) + s.q.staged) == s.sent;
  }
}
