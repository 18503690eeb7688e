/** uspace/src/lf_queue.c: the two loops on one queue as the code runs them, with the process at the
    other end making any number of its own accesses between any two of theirs. */
module SharedQueue {
  import opened Cyclic
  import opened LfQueue

  class LfQueueObject<T(0)> {
    var head: nat
    var tail: nat
    const desc: array<T>
    var list: seq<T>  // the staging list, touched by the producer only

    // where the two processes are in their operations, with their local variables
    var prod: Producer
    var cons: Consumer
    // everything handed to the producer and everything the consumer got, so far
    ghost var sent: seq<T>
    ghost var received: seq<T>

    function View(): Queue<T>
      reads this, desc
    {
      Queue(head, tail, desc[..], list, prod, cons)
    }

    ghost function Past(): History<T>
      reads this, desc
    {
      History(View(), sent, received)
    }

    ghost predicate Valid()
      reads this, desc
    {
      Fifo(Past())
    }

    /** How many descriptors are published and not yet consumed. */
    ghost function Used(): nat
      reads this, desc
      requires Valid()
    {
      Off(head, tail, desc.Length)
    }

    /** lfq_queue_create_init */
    constructor (size: nat)
      requires 0 < size
      ensures Valid() && desc.Length == size && fresh(desc)
      ensures prod == PIdle && cons == CIdle && sent == [] && received == [] && list == []
    {
      head, tail, list := 0, 0, [];
      desc := new T[size];
      prod, cons := PIdle, CIdle;
      sent, received := [], [];
    }

    /** lfq_send */
    method SendPacket(x: T)
      requires Valid()
      modifies this`list, this`sent
      ensures Valid() && sent == old(sent) + [x] && list == old(list) + [x]
    {
      SendKeepsFifo(Past(), x);
      list := list + [x];
      sent := sent + [x];
    }

    /** Any number of accesses of the receiving process. */
    method ConsumerInterferes()
      requires Valid()
      modifies this`head, this`cons, this`received
      ensures Valid() && old(received) <= received
    {
      var steps: nat := *;
      while 0 < steps
        invariant Valid() && old(received) <= received
      {
        ConsumerKeepsFifo(Past());
        if !cons.CIdle? { received := received + Delivered(View()); }
        var next := if cons.CIdle? then ConsumerBegin(View()) else ConsumerStep(View());
        head, cons := next.head, next.cons;
        steps := steps - 1;
      }
    }

    /** One access of the sending process to the queue. */
    method ProducerAccess()
      requires Valid()
      modifies this`tail, this`prod, this`list, desc
      ensures Valid() && Off(head, old(tail), desc.Length) <= Off(head, tail, desc.Length)
    {
      hide LfQueue.Valid, InRing;
      ProducerKeepsFifo(Past());
      TailAdvances(View());
      IdleFacts(View());
      if prod.PFilling? { FillingFacts(View()); }
      var next := if prod.PIdle? then ProducerBegin(View()) else ProducerStep(View());
      if prod.PFilling? && list != [] { desc[prod.i] := list[0]; }
      tail, prod, list := next.tail, next.prod, next.staged;
      assert View() == next;
    }

    /** Any number of accesses of the sending process, and of packets handed to it. */
    method ProducerInterferes()
      requires Valid()
      modifies this`tail, this`prod, this`list, this`sent, desc
      ensures Valid() && old(sent) <= sent
      ensures Off(head, old(tail), desc.Length) <= Off(head, tail, desc.Length)
    {
      var steps: nat := *;
      while 0 < steps
        invariant Valid() && old(sent) <= sent
        invariant Off(head, old(tail), desc.Length) <= Off(head, tail, desc.Length)
      {
        var more: bool := *;
        if more {
          var x: T := *;
          SendPacket(x);
        } else {
          ProducerAccess();
        }
        steps := steps - 1;
      }
    }

    /** One pass of the do-while loop: the first staged packet goes to slot `i`. */
    method FillOne(seen: nat, start: nat, i: nat, next: nat, count: nat) returns (next': nat)
      requires Valid() && prod == PFilling(seen, start, i, next, count) && list != []
      requires i < desc.Length && next == Next(i, desc.Length)
      modifies this`list, this`prod, desc
      ensures Valid() && list == old(list)[1..]
      ensures next' == Next(next, desc.Length)
      ensures prod == if next' != seen then PFilling(seen, start, next, next', count + 1)
                      else PPublish(seen, start, next)
    {
      hide LfQueue.Valid, InRing;
      ghost var before := View();
      ProducerKeepsFifo(Past());
      FillingFacts(before);
      desc[i] := list[0];
      list := list[1..];
      next' := next + 1;
      if next' >= desc.Length { next' := 0; }
      prod := if next' != seen then PFilling(seen, start, next, next', count + 1) else PPublish(seen, start, next);
      assert View() == ProducerStep(before);
    }

    /** The end of the loop when the staging list is empty. */
    method StopFilling(seen: nat, start: nat, i: nat, next: nat, count: nat)
      requires Valid() && prod == PFilling(seen, start, i, next, count) && list == []
      modifies this`prod
      ensures Valid() && prod == if count > 0 then PPublish(seen, start, i) else PIdle
    {
      hide LfQueue.Valid, InRing;
      ghost var before := View();
      ProducerKeepsFifo(Past());
      prod := if count > 0 then PPublish(seen, start, i) else PIdle;
      assert View() == ProducerStep(before);
    }

    /** The CAS on the tail, which cannot fail. */
    method PublishTail(seen: nat, start: nat, i: nat)
      requires Valid() && prod == PPublish(seen, start, i)
      modifies this`tail, this`prod
      ensures Valid() && prod == PIdle && tail == i
    {
      hide LfQueue.Valid, InRing;
      ghost var before := View();
      IdleFacts(before);
      ProducerKeepsFifo(Past());
      if tail == start {
        tail, prod := i, PIdle;
      } else {
        assert false;  // exit(-1)
      }
      assert View() == ProducerStep(before);
    }

    /** The do-while loop of __put_packet_to_queue, from having read `seen` and `start` to the CAS. */
    method Fill(seen: nat, start: nat) returns (count: nat, i: nat)
      requires Valid() && start < desc.Length && prod == PFilling(seen, start, start, Next(start, desc.Length), 0)
      modifies this, desc
      ensures Valid() && sent == old(sent) && old(received) <= received && tail == start
      ensures var room := desc.Length - 1 - Off(seen, start, desc.Length);
              count == if |old(list)| <= room then |old(list)| else room
      ensures list == old(list)[count..]
      ensures i < desc.Length && i == At(start, count, desc.Length)
      ensures prod == if count > 0 then PPublish(seen, start, i) else PIdle
    {
      hide LfQueue.Valid, InRing, Next, Off, At;
      FillingFacts(View());
      AtStart(start, desc.Length);
      FullIff(seen, start, desc.Length);
      count := 0;
      i := start;
      var next: nat := Next(start, desc.Length);
      while list != []
        invariant Valid() && sent == old(sent) && old(received) <= received && start == tail
        invariant prod == PFilling(seen, start, i, next, count)
        invariant i < desc.Length && next == Next(i, desc.Length) && next != seen
        invariant count < desc.Length && i == At(start, count, desc.Length)
        invariant count + Off(seen, start, desc.Length) == Off(seen, i, desc.Length)
        invariant count <= |old(list)| && list == old(list)[count..]
        decreases |list|
      {
        FullIff(seen, i, desc.Length);
        OneFurther(seen, start, i, count, desc.Length);
        next := FillOne(seen, start, i, next, count);
        count := count + 1;
        i := Next(i, desc.Length);
        FullIff(seen, i, desc.Length);
        if next == seen { return; }
        ConsumerInterferes();
      }
      StopFilling(seen, start, i, next, count);
    }

    /** __put_packet_to_queue, returning how many packets it put.  It takes from the front of the staging
        list all there are, or as many as were free when it read `head`. */
    method Put() returns (count: nat)
      requires Valid() && prod.PIdle?
      modifies this, desc
      ensures Valid() && prod.PIdle? && sent == old(sent) && old(received) <= received
      ensures var room := desc.Length - 1 - old(Used());
              count == if |old(list)| <= room then |old(list)| else room
      ensures list == old(list)[count..]
      ensures tail == At(old(tail), count, desc.Length)
    {
      hide LfQueue.Valid, InRing;
      IdleFacts(View());
      count := 0;
      ProducerKeepsFifo(Past());
      var seen: nat := head;
      prod := PGotHead(head);
      ConsumerInterferes();
      ProducerKeepsFifo(Past());
      var start := tail;
      var i: nat := start;
      NextIsModulo(i, desc.Length);
      var next: nat := (i + 1) % desc.Length;
      if next == seen {
        prod := PIdle;
        return;
      }
      prod := PFilling(seen, start, i, next, 0);
      ConsumerInterferes();
      count, i := Fill(seen, start);
      if count > 0 {
        ConsumerInterferes();
        PublishTail(seen, start, i);
      }
    }

    /** The end of the loop. */
    method StopReading(start: nat, end: nat, count: nat)
      requires Valid() && cons == CReading(start, end, end, count)
      modifies this`cons
      ensures Valid() && cons == if count > 0 then CPublish(start, end) else CIdle
    {
      hide LfQueue.Valid, InRing;
      ghost var before := View();
      ConsumerKeepsFifo(Past());
      cons := if count > 0 then CPublish(start, end) else CIdle;
      assert View() == ConsumerStep(before) && Delivered(before) == [] && received + [] == received;
    }

    /** The CAS on the head, which cannot fail. */
    method PublishHead(start: nat, i: nat)
      requires Valid() && cons == CPublish(start, i)
      modifies this`head, this`cons
      ensures Valid() && cons == CIdle && head == i
    {
      hide LfQueue.Valid, InRing;
      ghost var before := View();
      IdleFacts(before);
      ConsumerKeepsFifo(Past());
      if head == start {
        head, cons := i, CIdle;
      } else {
        assert false;  // exit(-1)
      }
      assert View() == ConsumerStep(before) && Delivered(before) == [] && received + [] == received;
    }

    /** Reading the tail, after the head. */
    method ReadTail(start: nat)
      requires Valid() && cons == CGotHead(start)
      modifies this`cons
      ensures Valid() && cons == CReading(start, tail, start, 0)
    {
      hide LfQueue.Valid, InRing;
      ghost var before := View();
      ConsumerKeepsFifo(Past());
      cons := CReading(start, tail, start, 0);
      assert View() == ConsumerStep(before) && Delivered(before) == [] && received + [] == received;
    }

    /** The while loop of __get_packet_from_queue, from having read `start` and `end` to the CAS. */
    method Drain(start: nat, end: nat) returns (got: seq<T>, i: nat)
      requires Valid() && end < desc.Length && head == start && cons == CReading(start, end, start, 0)
      modifies this, desc
      ensures Valid() && old(sent) <= sent && head == start
      ensures received == old(received) + got
      ensures start < desc.Length && i == end && |got| == Off(start, end, desc.Length)
      ensures cons == if |got| > 0 then CPublish(start, i) else CIdle
    {
      hide LfQueue.Valid, InRing;
      IdleFacts(View());
      got := [];
      i := start;
      while i != end
        invariant Valid() && old(sent) <= sent && start == head
        invariant cons == CReading(start, end, i, |got|)
        invariant i < desc.Length && |got| + Off(i, end, desc.Length) == Off(start, end, desc.Length)
        invariant received == old(received) + got
        decreases Off(i, end, desc.Length)
      {
        ghost var before := View();
        ConsumerKeepsFifo(Past());
        got := got + [desc[i]];
        received := received + [desc[i]];
        i := i + 1;
        if i >= desc.Length { i := 0; }
        cons := CReading(start, end, i, |got|);
        assert View() == ConsumerStep(before);
        ProducerInterferes();
      }
      StopReading(start, end, |got|);
    }

    /** __get_packet_from_queue: appends to `got` every descriptor that is published when it reads `tail`,
        which is at least those published on entry, and frees their slots. */
    method Get() returns (got: seq<T>)
      requires Valid() && cons.CIdle?
      modifies this, desc
      ensures Valid() && cons.CIdle? && old(sent) <= sent
      ensures received == old(received) + got
      ensures old(Used()) <= |got| < desc.Length
      ensures head == At(old(head), |got|, desc.Length)
    {
      hide LfQueue.Valid, InRing;
      IdleFacts(View());
      ghost var used := Used();
      got := [];
      ConsumerKeepsFifo(Past());
      var start: nat := head;
      cons := CGotHead(head);
      ProducerInterferes();
      IdleFacts(View());
      assert used <= Used();
      var end: nat := tail;
      ReadTail(start);
      var i;
      got, i := Drain(start, end);
      if |got| > 0 {
        ProducerInterferes();
        PublishHead(start, i);
      }
    }
  }
}
