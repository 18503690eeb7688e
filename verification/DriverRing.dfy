/** uspace/src/driver.c: the four ring loops as the code runs them, with the device finishing any of its
    descriptors between any two iterations. */
module DriverRing {
  import opened Common
  import opened Cyclic
  import opened NicRing

  datatype Packet = Packet(phys: nat, len: bv16)

  const DD: bv32 := 1              // E1000_RXD_STAT_DD, E1000_TXD_STAT_DD

  function Done(status: bv32): bool {
    status & DD != 0
  }

  /** The olinfo_status word ring_send_tx_buffer writes where the device later writes the status. */
  function OlInfo(len: bv16): bv32 {
    PayLenWord(if len < 60 then 60 else Wide(len))
  }

  function PayLenWord(n: bv32): bv32 {
    n << 14  // E1000_ADVTXD_PAYLEN_SHIFT
  }

  /** From u16 to unsigned. */
  function Wide(len: bv16): bv32 {
    len as bv32
  }

  /** The length of the payload, at least 60, is in the bits from 14 on, and all others are clear, DD among them. */
  lemma ArmingClearsDone(len: bv16)
    ensures !Done(OlInfo(len))
    ensures OlInfo(len) >> 14 == (if len < 60 then 60 else Wide(len)) && OlInfo(len) & 0x3FFF == 0
  {
    WideSmall(len);
    hide PayLenWord, Wide, Done;
    PayLenBits(if len < 60 then 60 else Wide(len));
  }

  lemma WideSmall(len: bv16)
    ensures Wide(len) < 0x1_0000
  {
  }

  lemma PayLenBits(n: bv32)
    requires n < 0x1_0000
    ensures PayLenWord(n) >> 14 == n && PayLenWord(n) & 0x3FFF == 0 && !Done(PayLenWord(n))
  {
  }

  function WithDone(word: bv32): bv32 {
    word | DD
  }

  lemma WithDoneIs(word: bv32)
    ensures Done(WithDone(word))
  {
  }

  /** What arming a descriptor writes where the DD bit is: hdr_addr overlaps the status word of an rx descriptor. */
  function ArmWord(tx: bool, x: Packet): bv32 {
    if tx then OlInfo(x.len) else 0
  }

  lemma ArmWordNotDone(tx: bool, x: Packet)
    ensures !Done(ArmWord(tx, x))
    ensures ArmWord(false, x) == 0 && ArmWord(true, x) == OlInfo(x.len)
  {
    ArmingClearsDone(x.len);
    hide OlInfo;
  }

  lemma ArmedNone(buffer: seq<Option<Packet>>, address: seq<nat>, status: seq<bv32>, armed: seq<bool>,
                  start: nat, xs: seq<Packet>, tx: bool)
    requires start < |buffer| == |address| == |status| == |armed| && xs == []
    ensures Armed(buffer, address, status, armed, start, xs, tx, false)
  {
  }

  /** The slots from start on hold these packets, their descriptors are as arming leaves them, and the device holds
      them or not. */
  ghost predicate Armed(buffer: seq<Option<Packet>>, address: seq<nat>, status: seq<bv32>, armed: seq<bool>,
                        start: nat, xs: seq<Packet>, tx: bool, held: bool) {
    && start < |buffer| == |address| == |status| == |armed| && |xs| < |buffer|
    && forall k | 0 <= k < |xs| ::
         var j := At(start, k, |buffer|);
         && buffer[j] == Some(xs[k]) && address[j] == xs[k].phys && status[j] == ArmWord(tx, xs[k])
         && armed[j] == held
  }

  lemma ArmedMore(buffer: seq<Option<Packet>>, address: seq<nat>, status: seq<bv32>, armed: seq<bool>,
                  start: nat, xs: seq<Packet>, tx: bool, i: nat, x: Packet)
    requires Armed(buffer, address, status, armed, start, xs, tx, false) && |xs| + 1 < |buffer|
    requires i == At(start, |xs|, |buffer|) && !armed[i]
    ensures Armed(buffer[i := Some(x)], address[i := x.phys], status[i := ArmWord(tx, x)], armed, start, xs + [x], tx,
                  false)
  {
    hide ArmWord;
  }

  lemma ArmedStays(buffer: seq<Option<Packet>>, address: seq<nat>, status: seq<bv32>, armed: seq<bool>,
                   status': seq<bv32>, armed': seq<bool>, start: nat, xs: seq<Packet>, tx: bool)
    requires Armed(buffer, address, status, armed, start, xs, tx, false) && |status'| == |armed'| == |status|
    requires forall i | 0 <= i < |armed| && !armed[i] :: !armed'[i] && status'[i] == status[i]
    ensures Armed(buffer, address, status', armed', start, xs, tx, false)
  {
    hide ArmWord;
  }

  /** Writing the tail register hands them all to the device. */
  lemma ArmedHeld(buffer: seq<Option<Packet>>, address: seq<nat>, status: seq<bv32>, armed: seq<bool>,
                  armed': seq<bool>, start: nat, xs: seq<Packet>, tx: bool)
    requires Armed(buffer, address, status, armed, start, xs, tx, false) && |armed'| == |armed|
    requires forall k | 0 <= k < |xs| :: armed'[At(start, k, |buffer|)]
    ensures Armed(buffer, address, status, armed', start, xs, tx, true)
  {
    hide ArmWord;
  }

  class RingObject {
    const size: nat
    var head: nat
    var tail: nat
    const buffer: array<Option<Packet>>
    const address: array<nat>     // descriptor: packet address
    const status: array<bv32>     // descriptor: the word that holds the DD bit
    var tailReg: nat
    var armed: seq<bool>          // the device holds the descriptor
    ghost var scan: Scan

    ghost function View(): Ring<Packet>
      reads this, buffer, status, address
    {
      Ring(head, tail, buffer[..], DoneBits(), armed, scan)
    }

    ghost function DoneBits(): (r: seq<bool>)
      reads status
      ensures |r| == status.Length && forall i | 0 <= i < |r| :: r[i] == Done(status[i])
    {
      seq(status.Length, i requires 0 <= i < status.Length reads status => Done(status[i]))
    }

    ghost predicate Valid()
      reads this, buffer, status, address
    {
      && size == buffer.Length == status.Length == address.Length == |armed|
      && buffer as object != status && buffer as object != address && status as object != address
      && NicRing.Valid(View()) && tailReg == tail
      && (forall i | 0 <= i < size && buffer[i].Some? :: address[i] == buffer[i].value.phys)
    }

    ghost function Packets(): seq<Packet>
      reads this, buffer, status, address
      requires Valid()
    {
      Window(View())
    }

    /** The n descriptors from i on are finished. */
    ghost predicate Ready(i: nat, n: int)
      reads status
      requires size == status.Length
    {
      i < size && n <= size && forall k | 0 <= k < n :: Done(status[At(i, k, size)])
    }

    lemma ReadyHead(i: nat, n: int)
      requires size == status.Length && Ready(i, n) && 0 < n
      ensures i < size && Done(status[i])
    {
      assert At(i, 0, size) == i;
    }

    /** ring_create */
    constructor (n: nat)
      requires 0 < n
      ensures Valid() && size == n && scan == Idle && Packets() == []
      ensures fresh(buffer) && fresh(status) && fresh(address)
    {
      size := n;
      head, tail, tailReg, scan := 0, 0, 0, Idle;
      buffer := new Option<Packet>[n](_ => None);
      address := new nat[n](_ => 0);
      status := new bv32[n](_ => 0);
      armed := seq(n, _ => false);
      new;
      CreateIsEmpty<Packet>(n);
      assert View() == Create(n);
    }

    /** The device finishes descriptor j. */
    method DeviceFinishes(j: int)
      requires Valid() && 0 <= j < size && armed[j]
      modifies this`armed, status
      ensures View() == Finish(old(View()), j)
      ensures Valid() && Packets() == old(Packets())
      ensures forall i | 0 <= i < size :: old(Done(status[i])) ==> Done(status[i])
      ensures forall i | 0 <= i < size && !old(armed[i]) :: !armed[i] && status[i] == old(status[i])
    {
      WithDoneIs(status[j]);
      hide NicRing.Valid, Window, Done, WithDone;
      FinishKeeps(View(), j);
      armed := armed[j := false];
      status[j] := WithDone(status[j]);
      assert View().done == old(View()).done[j := true];
    }

    /** The device finishes any of its descriptors. */
    method DeviceInterferes()
      requires Valid()
      modifies this`armed, status
      ensures Valid() && Packets() == old(Packets())
      ensures forall i | 0 <= i < size :: old(Done(status[i])) ==> Done(status[i])
      ensures forall i | 0 <= i < size && !old(armed[i]) :: !armed[i] && status[i] == old(status[i])
    {
      hide NicRing.Valid, Window;
      var finished: nat := *;
      while 0 < finished
        invariant Valid() && Packets() == old(Packets())
        invariant forall i | 0 <= i < size :: old(Done(status[i])) ==> Done(status[i])
        invariant forall i | 0 <= i < size && !old(armed[i]) :: !armed[i] && status[i] == old(status[i])
      {
        var j: int := *;
        if 0 <= j < size && armed[j] {
          DeviceFinishes(j);
        }
        finished := finished - 1;
      }
    }

    /** ring_alloc_rx_buffer and ring_send_tx_buffer: the packet and its descriptor go to slot i. */
    method ArmSlot(i: nat, ghost count: nat, x: Packet, word: bv32)
      requires Valid() && scan == Filling(i, count) && HasRoom(View()) && !Done(word)
      modifies this`scan, buffer, status, address
      ensures Valid() && scan == Filling(Next(i, size), count + 1)
      ensures Packets() == old(Packets()) + [x]
      ensures i < size == |armed| && !armed[i]
      ensures buffer[..] == old(buffer[..])[i := Some(x)] && address[..] == old(address[..])[i := x.phys]
      ensures status[..] == old(status[..])[i := word]
    {
      hide NicRing.Valid, Window;
      ghost var before := View();
      RingFacts(before);
      NextNotArmed(before);
      FillKeeps(before, x);
      buffer[i] := Some(x);
      address[i] := x.phys;
      status[i] := word;
      scan := Filling(Next(i, size), count + 1);
      assert View().done == before.done[i := false];
      assert View() == Fill(before, x);
    }

    lemma Sizes()
      requires Valid()
      ensures size == buffer.Length == status.Length == address.Length == |armed|
    {
    }

    ghost method BeginFilling()
      requires Valid() && scan == Idle
      modifies this`scan
      ensures Valid() && scan == Filling(tail, 0) && Packets() == old(Packets()) && tail < size
    {
      hide NicRing.Valid, Window;
      BeginKeeps(View());
      RingFacts(View());
      ghost var begun := FillBegin(View());
      scan := Filling(tail, 0);
      assert View() == begun;
    }

    ghost method BeginDraining()
      requires Valid() && scan == Idle
      modifies this`scan
      ensures Valid() && scan == Draining(head, 0) && Packets() == old(Packets()) && head < size
    {
      hide NicRing.Valid, Window;
      BeginKeeps(View());
      RingFacts(View());
      ghost var begun := DrainBegin(View());
      scan := Draining(head, 0);
      assert View() == begun;
    }

    /** The guards of the draining loops. */
    lemma DrainingGuard(i: nat, count: nat, tx: bool)
      requires Valid() && scan == Draining(i, count)
      ensures i < size && size == status.Length && Next(i, size) == (i + 1) % size
      ensures CanDrain(View(), tx) <==> (if tx then (i + 1) % size else i) != tail && Done(status[i])
    {
      NextIsModulo(i, size);
      RingFacts(View());
      hide NicRing.Valid, Window, Done;
    }

    /** The guard of the filling loops: one slot stays empty. */
    lemma FillingGuard(i: nat, count: nat)
      requires Valid() && scan == Filling(i, count)
      ensures i < size && |Packets()| < size && Next(i, size) == (i + 1) % size
      ensures (HasRoom(View()) <==> (i + 1) % size != head) && (HasRoom(View()) <==> |Packets()| < size - 1)
    {
      RingFacts(View());
      NextIsModulo(i, size);
      FullIff(head, i, size);
      hide NicRing.Valid, Window;
    }

    /** One pass of either filling loop, and whatever the device does during it; xs has been filled in before. */
    method Arm(i: nat, x: Packet, word: bv32, ghost tx: bool, ghost start: nat, ghost xs: seq<Packet>)
      requires Valid() && scan == Filling(i, |xs|) && HasRoom(View()) && word == ArmWord(tx, x)
      requires start == tail && Armed(buffer[..], address[..], status[..], armed, start, xs, tx, false)
      modifies this`scan, this`armed, buffer, status, address
      ensures Valid() && scan == Filling(Next(i, size), |xs| + 1)
      ensures Packets() == old(Packets()) + [x]
      ensures Armed(buffer[..], address[..], status[..], armed, start, xs + [x], tx, false)
    {
      hide NicRing.Valid, Window, Armed, HasRoom;
      ArmWordNotDone(tx, x);
      hide ArmWord, Done;
      RingFacts(View());
      NextNotArmed(View());
      ArmedMore(buffer[..], address[..], status[..], armed, start, xs, tx, i, x);
      ArmSlot(i, |xs|, x, word);
      ghost var status0, armed0 := status[..], armed;
      DeviceInterferes();
      ArmedStays(buffer[..], address[..], status0, armed0, status[..], armed, start, xs + [x], tx);
    }

    /** The end of ring_alloc_rx_buffers and ring_send: writing the tail register gives the device every
        descriptor up to it; xs has been filled in. */
    method FinishFilling(i: nat, count: nat, ghost xs: seq<Packet>, ghost tx: bool)
      requires Valid() && scan == Filling(i, count) && |xs| == count
      requires Armed(buffer[..], address[..], status[..], armed, tail, xs, tx, false)
      modifies this
      ensures Valid() && scan == Idle && Packets() == old(Packets())
      ensures head == old(head) && View() == FillEnd(old(View()))
      ensures old(tail) < size && count < size && tailReg == tail == At(old(tail), count, size)
      ensures Armed(buffer[..], address[..], status[..], armed, old(tail), xs, tx, true)
    {
      hide NicRing.Valid, Window, Armed;
      ghost var before := View();
      FillEndKeeps(before);
      RingFacts(before);
      if count > 0 {
        armed := seq(size, j requires 0 <= j < size && tail < size && i < size && |armed| == size reads this =>
                             armed[j] || Off(tail, j, size) < Off(tail, i, size));
        tail := i;
        tailReg := i;
      }
      scan := Idle;
      assert armed == FillEnd(before).armed;
      ArmedHeld(buffer[..], address[..], status[..], before.armed, armed, before.tail, xs, tx);
    }

    /** ring_alloc_rx_buffers: takes packets from the front of the free pool until the pool is empty or one
        slot is left, and hands them to the device. */
    method AllocRxBuffers(pool: seq<Packet>) returns (rest: seq<Packet>)
      requires Valid() && scan == Idle
      modifies this, buffer, status, address
      ensures Valid() && scan == Idle
      ensures var room := size - 1 - |old(Packets())|;
              var count := if |pool| <= room then |pool| else room;
              && Packets() == old(Packets()) + pool[..count] && rest == pool[count..]
              && old(tail) < size && tailReg == tail == At(old(tail), count, size)
              && Armed(buffer[..], address[..], status[..], armed, old(tail), pool[..count], false, true)
    {
      hide NicRing.Valid, Window, Armed, ArmWord, OlInfo, Done, HasRoom, Between;
      Sizes();
      rest := pool;
      ghost var start := tail;
      var i: nat := tail;
      var count: nat := 0;
      var end := head;
      BeginFilling();
      FillingGuard(i, 0);
      ArmedNone(buffer[..], address[..], status[..], armed, start, pool[..count], false);
      while (i + 1) % size != end
        invariant Valid() && scan == Filling(i, count) && i < size && head == end
        invariant count <= |pool| && rest == pool[count..]
        invariant Packets() == old(Packets()) + pool[..count]
        invariant tail == start && Armed(buffer[..], address[..], status[..], armed, start, pool[..count], false, false)
        decreases |rest|
      {
        if rest == [] { break; }
        FillingGuard(i, count);
        ArmWordNotDone(false, rest[0]);
        Arm(i, rest[0], 0, false, start, pool[..count]);  // hdr_addr := 0 overlaps the status word
        assert pool[..count] + [rest[0]] == pool[..count + 1];
        rest := rest[1..];
        i := (i + 1) % size;
        count := count + 1;
      }
      FillingGuard(i, count);
      FinishFilling(i, count, pool[..count], false);
    }

    /** ring_send: takes packets from the front of the ring's pool, likewise. */
    method Send(pool: seq<Packet>) returns (rest: seq<Packet>)
      requires Valid() && scan == Idle
      modifies this, buffer, status, address
      ensures Valid() && scan == Idle
      ensures var room := size - 1 - |old(Packets())|;
              var count := if |pool| <= room then |pool| else room;
              && Packets() == old(Packets()) + pool[..count] && rest == pool[count..]
              && old(tail) < size && tailReg == tail == At(old(tail), count, size)
              && Armed(buffer[..], address[..], status[..], armed, old(tail), pool[..count], true, true)
    {
      hide NicRing.Valid, Window, Armed, ArmWord, OlInfo, Done, HasRoom, Between;
      Sizes();
      rest := pool;
      ghost var start := tail;
      var i: nat := tail;
      var count: nat := 0;
      var end := head;
      BeginFilling();
      FillingGuard(i, 0);
      ArmedNone(buffer[..], address[..], status[..], armed, start, pool[..count], true);
      while (i + 1) % size != end
        invariant Valid() && scan == Filling(i, count) && i < size && head == end
        invariant count <= |pool| && rest == pool[count..]
        invariant Packets() == old(Packets()) + pool[..count]
        invariant tail == start && Armed(buffer[..], address[..], status[..], armed, start, pool[..count], true, false)
        decreases |rest|
      {
        if rest == [] { break; }
        FillingGuard(i, count);
        ArmWordNotDone(true, rest[0]);
        Arm(i, rest[0], OlInfo(rest[0].len), true, start, pool[..count]);
        assert pool[..count] + [rest[0]] == pool[..count + 1];
        rest := rest[1..];
        i := (i + 1) % size;
        count := count + 1;
      }
      FillingGuard(i, count);
      FinishFilling(i, count, pool[..count], true);
    }

    /** ring_recv_rx_buffer and ring_reclaim_tx_buffer on a finished descriptor. */
    method DrainSlot(i: nat, count: nat, ghost tx: bool) returns (x: Packet)
      requires Valid() && scan == Draining(i, count) && CanDrain(View(), tx)
      modifies this`scan, buffer, status
      ensures Valid() && scan == Draining(Next(i, size), count + 1)
      ensures [x] + Packets() == old(Packets()) && (tx ==> Packets() != [])
      ensures forall j | 0 <= j < size && j != i :: status[j] == old(status[j])
    {
      hide NicRing.Valid, Window;
      ghost var before := View();
      RingFacts(before);
      DrainKeeps(before, tx);
      match buffer[i] {
        case None => assert false;  // exit(-1)
        case Some(pkt) => x := pkt;
      }
      buffer[i] := None;
      status[i] := 0;
      scan := Draining(Next(i, size), count + 1);
      assert View().done == before.done[i := false];
      assert View() == Drain(before);
    }

    /** One pass of either draining loop, and whatever the device does during it. */
    method TakeOne(i: nat, count: nat, ghost tx: bool, ghost ready: int) returns (x: Packet)
      requires Valid() && scan == Draining(i, count) && CanDrain(View(), tx) && Ready(i, ready)
      modifies this`scan, this`armed, buffer, status
      ensures Valid() && scan == Draining(Next(i, size), count + 1)
      ensures [x] + Packets() == old(Packets()) && (tx ==> Packets() != [])
      ensures Ready(Next(i, size), ready - 1)
    {
      hide NicRing.Valid, Window;
      x := DrainSlot(i, count, tx);
      assert Ready(Next(i, size), ready - 1) by {
        forall k | 0 <= k < ready - 1
          ensures Done(status[At(Next(i, size), k, size)])
        {
          assert At(Next(i, size), k, size) == At(i, k + 1, size) != i;
        }
      }
      DeviceInterferes();
    }

    /** The end of both draining loops: the head is written back. */
    method FinishDraining(i: nat, count: nat)
      requires Valid() && scan == Draining(i, count)
      modifies this
      ensures Valid() && scan == Idle && Packets() == old(Packets())
      ensures View() == DrainEnd(old(View()))
    {
      hide NicRing.Valid, Window;
      ghost var before := View();
      DrainEndKeeps(before);
      RingFacts(before);
      if count > 0 {
        head := i;
      }
      scan := Idle;
      assert View() == DrainEnd(before);
    }

    /** ring_recv: takes finished descriptors from the head until one is not finished or the ring is empty.
        The `ready` packets whose descriptors were finished on entry are
        among them. */
    method Recv(ghost ready: nat) returns (got: seq<Packet>)
      requires Valid() && scan == Idle
      requires ready <= |Packets()| && Ready(head, ready)
      modifies this, buffer, status
      ensures Valid() && scan == Idle
      ensures got + Packets() == old(Packets())
      ensures ready <= |got|
    {
      hide NicRing.Valid, Window, Ready, Done, CanDrain;
      got := [];
      ghost var all := Packets();
      BeginDraining();
      var i: nat := head;
      var end := tail;
      while i != end
        invariant Valid() && scan == Draining(i, |got|) && i < size && tail == end && head == old(head)
        invariant got + Packets() == all
        invariant Ready(i, ready - |got|)
        decreases |Packets()|
      {
        DrainingGuard(i, |got|, false);
        if ready > |got| { ReadyHead(i, ready - |got|); }
        if !Done(status[i]) { break; }
        var x := TakeOne(i, |got|, false, ready - |got|);
        assert got + ([x] + Packets()) == got + [x] + Packets();
        got := got + [x];
        i := (i + 1) % size;
      }
      RingFacts(View());
      FinishDraining(i, |got|);
    }

    /** ring_reclaim_tx_buffers: hands sent packets back in the order they were sent, each once.  The guard
        stops one slot early, so the last packet in flight stays; on an empty ring it looks at slots that
        hold no packet, and finds none finished.  The `ready` packets finished on entry, the last one in flight
        apart, are among those handed back. */
    method ReclaimTx(ghost ready: nat) returns (got: seq<Packet>)
      requires Valid() && scan == Idle
      requires (ready == 0 || ready < |Packets()|) && Ready(head, ready)
      modifies this, buffer, status
      ensures Valid() && scan == Idle
      ensures got + Packets() == old(Packets())
      ensures old(Packets()) != [] ==> Packets() != []
      ensures ready <= |got|
    {
      hide NicRing.Valid, Window, Ready, Done, CanDrain;
      got := [];
      ghost var all := Packets();
      BeginDraining();
      var i: nat := head;
      var end := tail;
      while (i + 1) % size != end
        invariant Valid() && scan == Draining(i, |got|) && i < size && tail == end && head == old(head)
        invariant got + Packets() == all
        invariant all != [] ==> Packets() != []
        invariant Ready(i, ready - |got|)
        decreases |Packets()|
      {
        DrainingGuard(i, |got|, true);
        if ready > |got| { ReadyHead(i, ready - |got|); }
        if !Done(status[i]) { break; }
        var x := TakeOne(i, |got|, true, ready - |got|);
        assert got + ([x] + Packets()) == got + [x] + Packets();
        got := got + [x];
        i := (i + 1) % size;
      }
      NextIsModulo(i, size);
      RingFacts(View());
      FinishDraining(i, |got|);
    }
  }
}
