/** uspace/src/driver.c: one descriptor ring shared with the device, rx or tx.  The process fills slots
    from `tail` and drains them from `head`; both loops work on a local index and store it back at the end.
    The device may finish any descriptor that was published to it, at any moment. */
module NicRing {
  import opened Common
  import opened Cyclic

  /** The loop the owning process is in, with its local variables. */
  datatype Scan =
    | Idle
    | Filling(i: nat, count: nat)
    | Draining(i: nat, count: nat)

  /** `done[j]` is the DD bit of descriptor j; `armed[j]` says the device has been given descriptor j
      through the tail register and has not finished it. */
  datatype Ring<T> = Ring(head: nat, tail: nat, buffer: seq<Option<T>>, done: seq<bool>, armed: seq<bool>, scan: Scan)

  function Size<T>(r: Ring<T>): nat { |r.buffer| }

  /** ring_create */
  function Create<T>(size: nat): Ring<T>
  {
    Ring(0, 0, seq(size, _ => None), seq(size, _ => false), seq(size, _ => false), Idle)
  }

  // ---------- the steps ----------

  function FillBegin<T>(r: Ring<T>): Ring<T> {
    r.(scan := Filling(r.tail, 0))
  }

  /** The guard `(i + 1) % size != end` of ring_alloc_rx_buffers and ring_send. */
  predicate HasRoom<T>(r: Ring<T>)
    requires Valid(r) && r.scan.Filling?
  {
    Next(r.scan.i, Size(r)) != r.head
  }

  /** ring_alloc_rx_buffer and ring_send_tx_buffer: store the packet; writing the descriptor clears DD. */
  function Fill<T>(r: Ring<T>, x: T): Ring<T>
    requires Valid(r) && r.scan.Filling?
  {
    var i := r.scan.i;
    r.(buffer := r.buffer[i := Some(x)], done := r.done[i := false],
       scan := Filling(Next(i, Size(r)), r.scan.count + 1))
  }

  /** Storing `tail` and writing the tail register hands the filled descriptors to the device. */
  function FillEnd<T>(r: Ring<T>): Ring<T>
    requires Valid(r) && r.scan.Filling?
  {
    if r.scan.count > 0 then
      r.(tail := r.scan.i, scan := Idle,
         armed := seq(Size(r), j requires 0 <= j < Size(r) =>
                        r.armed[j] || Off(r.tail, j, Size(r)) < Off(r.tail, r.scan.i, Size(r))))
    else r.(scan := Idle)
  }

  function DrainBegin<T>(r: Ring<T>): Ring<T> {
    r.(scan := Draining(r.head, 0))
  }

  /** ring_recv stops at the tail; ring_reclaim_tx_buffers one slot before it, which also lets it look at
      the slots of an empty ring. */
  predicate CanDrain<T>(r: Ring<T>, tx: bool)
    requires Valid(r) && r.scan.Draining?
  {
    var i := r.scan.i;
    (if tx then Next(i, Size(r)) else i) != r.tail && r.done[i]
  }

  /** ring_recv_rx_buffer and ring_reclaim_tx_buffer on a finished descriptor. */
  function Drain<T>(r: Ring<T>): Ring<T>
    requires Valid(r) && r.scan.Draining?
  {
    var i := r.scan.i;
    r.(buffer := r.buffer[i := None], done := r.done[i := false],
       scan := Draining(Next(i, Size(r)), r.scan.count + 1))
  }

  function DrainEnd<T>(r: Ring<T>): Ring<T>
    requires r.scan.Draining?
  {
    if r.scan.count > 0 then r.(head := r.scan.i, scan := Idle) else r.(scan := Idle)
  }

  /** The device finishes descriptor j. */
  function Finish<T>(r: Ring<T>, j: nat): Ring<T>
    requires Valid(r) && j < Size(r) && r.armed[j]
  {
    r.(done := r.done[j := true], armed := r.armed[j := false])
  }

  // ---------- the invariant ----------

  function Front<T>(r: Ring<T>): nat {
    if r.scan.Draining? then r.scan.i else r.head
  }

  function Back<T>(r: Ring<T>): nat {
    if r.scan.Filling? then r.scan.i else r.tail
  }

  /** Slot j lies in the cyclic window from `from` up to `to`. */
  predicate Between(from: nat, j: nat, to: nat, size: nat)
    requires from < size && j < size && to < size
  {
    Off(from, j, size) < Off(from, to, size)
  }

  /** A slot holds a packet exactly inside [front, back); a descriptor is with the device or finished
      exactly inside the published part [front, tail), and never both. */
  ghost predicate Valid<T>(r: Ring<T>) {
    && 0 < Size(r) == |r.done| == |r.armed|
    && r.head < Size(r) && r.tail < Size(r) && Front(r) < Size(r) && Back(r) < Size(r)
    && (forall j | 0 <= j < Size(r) :: r.buffer[j].Some? <==> Between(Front(r), j, Back(r), Size(r)))
    && (forall j | 0 <= j < Size(r) :: r.done[j] || r.armed[j] <==> Between(Front(r), j, r.tail, Size(r)))
    && (forall j | 0 <= j < Size(r) :: !(r.done[j] && r.armed[j]))
    && Off(r.head, Front(r), Size(r)) <= Off(r.head, r.tail, Size(r)) <= Off(r.head, Back(r), Size(r))
    && (r.scan.Filling? ==> r.scan.count == Off(r.tail, r.scan.i, Size(r)))
    && (r.scan.Draining? ==> r.scan.count == Off(r.head, r.scan.i, Size(r)))
  }

  /** The packets the ring holds, oldest first. */
  function Window<T>(r: Ring<T>): seq<T>
    requires Valid(r)
  {
    var slots := Slots(r.buffer, Front(r), Back(r));
    assert forall k | 0 <= k < |slots| :: slots[k].Some? by {
      forall k | 0 <= k < |slots|
        ensures slots[k].Some?
      {
        assert Between(Front(r), At(Front(r), k, Size(r)), Back(r), Size(r));
      }
    }
    seq(|slots|, k requires 0 <= k < |slots| => slots[k].value)
  }

  /** What Valid says about sizes, for proofs that hide it. */
  lemma RingFacts<T>(r: Ring<T>)
    requires Valid(r)
    ensures 0 < Size(r) && r.head < Size(r) && r.tail < Size(r) && Front(r) < Size(r) && Back(r) < Size(r)
    ensures |Window(r)| == Off(Front(r), Back(r), Size(r)) < Size(r)
    ensures |r.done| == |r.armed| == Size(r)
    ensures r.scan.Filling? ==> r.scan.count < Size(r) && r.scan.i == At(r.tail, r.scan.count, Size(r))
  {
  }

  /** The device does not hold the slot that is filled next. */
  lemma NextNotArmed<T>(r: Ring<T>)
    requires Valid(r) && r.scan.Filling?
    ensures r.scan.i < Size(r) == |r.armed| && !r.armed[r.scan.i]
    ensures HasRoom(r) ==> r.scan.count + 1 < Size(r)
  {
  }

  /** The k-th oldest packet is k slots behind the front; every other slot holds none, and one slot stays empty. */
  lemma {:induction false} SlotsHold<T>(r: Ring<T>, k: nat)
    requires Valid(r) && k < Size(r)
    ensures var j := At(Front(r), k, Size(r));
            && j < Size(r)
            && r.buffer[j] == if k < |Window(r)| then Some(Window(r)[k]) else None
    ensures |Window(r)| < Size(r)
    ensures forall j | 0 <= j < Size(r) :: j == At(Front(r), Off(Front(r), j, Size(r)), Size(r))
  {
    var j := At(Front(r), k, Size(r));
    assert Off(Front(r), j, Size(r)) == k;
    assert r.buffer[j].Some? <==> Between(Front(r), j, Back(r), Size(r));
  }

  /** What the guards of the loops mean: one slot stays empty, and the tx loop leaves the last packet. */
  lemma {:induction false} GuardsAre<T>(r: Ring<T>)
    requires Valid(r)
    ensures r.scan.Filling? ==> (HasRoom(r) <==> |Window(r)| + 1 < Size(r))
    ensures r.scan.Draining? ==> (CanDrain(r, false) <==> 0 < |Window(r)| && r.done[r.scan.i])
    ensures r.scan.Draining? ==> (CanDrain(r, true) <==> 1 < |Window(r)| && r.done[r.scan.i])
  {
    if r.scan.Filling? { FullIff(r.head, r.scan.i, Size(r)); }
    if r.scan.Draining? {
      assert r.done[r.scan.i] ==> Between(Front(r), r.scan.i, r.tail, Size(r));
    }
  }

  lemma CreateIsEmpty<T>(size: nat)
    requires 0 < size
    ensures Valid(Create<T>(size)) && Window(Create<T>(size)) == []
  {
  }

  lemma BeginKeeps<T>(r: Ring<T>)
    requires Valid(r) && r.scan.Idle?
    ensures Valid(FillBegin(r)) && Window(FillBegin(r)) == Window(r)
    ensures Valid(DrainBegin(r)) && Window(DrainBegin(r)) == Window(r)
  {
  }

  lemma FillKeeps<T>(r: Ring<T>, x: T)
    requires Valid(r) && r.scan.Filling? && HasRoom(r)
    ensures Valid(Fill(r, x)) && Window(Fill(r, x)) == Window(r) + [x]
  {
    FillValid(r, x);
    RingFacts(r);
    RingFacts(Fill(r, x));
    FillGrows(r, x);
    hide Valid, Window, HasRoom;
    var r' := Fill(r, x);
    forall k | 0 <= k < |Window(r')| ensures Window(r')[k] == (Window(r) + [x])[k] {
      WindowAt(r', k);
      if k < |Window(r)| { WindowAt(r, k); }
    }
  }

  lemma FillValid<T>(r: Ring<T>, x: T)
    requires Valid(r) && r.scan.Filling? && HasRoom(r)
    ensures Valid(Fill(r, x))
  {
  }

  lemma FillGrows<T>(r: Ring<T>, x: T)
    requires Valid(r) && r.scan.Filling? && HasRoom(r) && Valid(Fill(r, x))
    ensures |Window(Fill(r, x))| == |Window(r)| + 1 && Front(Fill(r, x)) == Front(r)
    ensures At(Front(r), |Window(r)|, Size(r)) == r.scan.i
  {
  }

  /** Afterwards the device holds or has finished the slot of every packet, and the slots filled last it holds. */
  lemma {:induction false} FillEndKeeps<T>(r: Ring<T>)
    requires Valid(r) && r.scan.Filling?
    ensures Valid(FillEnd(r)) && Window(FillEnd(r)) == Window(r)
    ensures FillEnd(r).tail == r.scan.i && FillEnd(r).scan == Idle
    ensures forall k | 0 <= k < |Window(r)| ::
              var j := At(r.head, k, Size(r));
              FillEnd(r).armed[j] || (k < |Window(r)| - r.scan.count && FillEnd(r).done[j])
  {
    FillEndValid(r);
    assert FillEnd(r).tail == r.scan.i;
    forall k | 0 <= k < |Window(r)|
      ensures var j := At(r.head, k, Size(r));
              FillEnd(r).armed[j] || (k < |Window(r)| - r.scan.count && FillEnd(r).done[j])
    {
      FillEndAt(r, k);
    }
  }

  lemma FillEndValid<T>(r: Ring<T>)
    requires Valid(r) && r.scan.Filling?
    ensures Valid(FillEnd(r))
  {
    AtStart(r.scan.i, Size(r));
    OffDiffers(r.tail, r.tail, r.scan.i, Size(r));
    AtStart(r.tail, Size(r));
    forall j | 0 <= j < Size(r)
      ensures Between(r.head, j, r.scan.i, Size(r)) <==>
              Between(r.head, j, r.tail, Size(r)) || Off(r.tail, j, Size(r)) < Off(r.tail, r.scan.i, Size(r))
    {
      OffSplit(r.head, r.tail, r.scan.i, j, Size(r));
    }
    hide Off;
  }

  lemma FillEndAt<T>(r: Ring<T>, k: nat)
    requires Valid(r) && r.scan.Filling? && k < |Window(r)| && Valid(FillEnd(r))
    ensures var j := At(r.head, k, Size(r));
            && k < Size(r) && Size(FillEnd(r)) == Size(r) == |FillEnd(r).armed| == |FillEnd(r).done|
            && (FillEnd(r).armed[j] || (k < |Window(r)| - r.scan.count && FillEnd(r).done[j]))
  {
    var j := At(r.head, k, Size(r));
    assert Off(r.head, j, Size(r)) == k;
    assert FillEnd(r).done[j] || FillEnd(r).armed[j] <==> Between(r.head, j, r.scan.i, Size(r));
  }

  lemma DrainFindsPacket<T>(r: Ring<T>, tx: bool)
    requires Valid(r) && r.scan.Draining? && CanDrain(r, tx)
    ensures r.scan.i < Size(r) && r.buffer[r.scan.i].Some?
    ensures 0 < Off(r.scan.i, r.tail, Size(r)) && r.tail == Back(r)
    ensures tx ==> 1 < Off(r.scan.i, r.tail, Size(r))
  {
    assert Between(Front(r), r.scan.i, r.tail, Size(r));
  }

  /** A finished descriptor always has its packet, so the exit(-1) of ring_reclaim_tx_buffer is unreachable,
      and what is drained is the oldest packet.  The tx loop never drains the last one. */
  lemma DrainKeeps<T>(r: Ring<T>, tx: bool)
    requires Valid(r) && r.scan.Draining? && CanDrain(r, tx)
    ensures r.scan.i < Size(r) && r.buffer[r.scan.i].Some?
    ensures Valid(Drain(r)) && Window(r) == [r.buffer[r.scan.i].value] + Window(Drain(r))
    ensures tx ==> Window(Drain(r)) != []
  {
    DrainFindsPacket(r, tx);
    DrainValid(r, tx);
    hide Valid, Slots;
    DrainWindow(r, Drain(r));
  }

  lemma WindowAt<T>(r: Ring<T>, k: nat)
    requires Valid(r) && k < |Window(r)|
    ensures k < Off(Front(r), Back(r), Size(r)) < Size(r)
    ensures r.buffer[At(Front(r), k, Size(r))] == Some(Window(r)[k])
  {
    assert Between(Front(r), At(Front(r), k, Size(r)), Back(r), Size(r));
  }

  /** The window without its oldest packet, when the front has moved on by one. */
  lemma DrainWindow<T>(r: Ring<T>, r': Ring<T>)
    requires Valid(r) && Valid(r') && Size(r') == Size(r) && Back(r') == Back(r) && Front(r) != Back(r)
    requires Front(r) < Size(r) && Front(r') == Next(Front(r), Size(r)) && r.buffer[Front(r)].Some?
    requires forall j | 0 <= j < Size(r) && j != Front(r) :: r'.buffer[j] == r.buffer[j]
    ensures Window(r) == [r.buffer[Front(r)].value] + Window(r')
  {
    RingFacts(r);
    RingFacts(r');
    ShorterWindow(r, r');
    hide Valid, Window, Off;
    var n, i := Size(r), Front(r);
    AtStart(i, n);
    WindowAt(r, 0);
    forall k | 0 <= k < |Window(r')| ensures Window(r')[k] == Window(r)[k + 1] {
      WindowAt(r', k);
      WindowAt(r, k + 1);
      AtNext(i, k, n);
    }
  }

  lemma ShorterWindow<T>(r: Ring<T>, r': Ring<T>)
    requires Valid(r) && Valid(r') && Size(r') == Size(r) && Back(r') == Back(r) && Front(r) != Back(r)
    requires Front(r) < Size(r) && Front(r') == Next(Front(r), Size(r))
    ensures |Window(r)| == |Window(r')| + 1
  {
    RingFacts(r);
    RingFacts(r');
    hide Valid, Window;
  }

  lemma DrainValid<T>(r: Ring<T>, tx: bool)
    requires Valid(r) && r.scan.Draining? && CanDrain(r, tx)
    ensures Valid(Drain(r))
  {
    DrainFindsPacket(r, tx);
  }

  lemma DrainEndKeeps<T>(r: Ring<T>)
    requires Valid(r) && r.scan.Draining?
    ensures Valid(DrainEnd(r)) && Window(DrainEnd(r)) == Window(r)
  {
  }

  lemma FinishKeeps<T>(r: Ring<T>, j: nat)
    requires Valid(r) && j < Size(r) && r.armed[j]
    ensures Valid(Finish(r, j)) && Window(Finish(r, j)) == Window(r)
  {
  }

  // ---------- whole runs of one ring ----------

  datatype Event<T> = BeginFill | Give(x: T) | EndFill | BeginDrain | Take | EndDrain | DeviceFinishes(j: nat)

  /** The ring, everything ever put into it, and everything ever taken out. */
  datatype History<T> = History(r: Ring<T>, given: seq<T>, taken: seq<T>)

  predicate Enabled<T>(r: Ring<T>, e: Event<T>, tx: bool)
    requires Valid(r)
  {
    match e
    case BeginFill => r.scan.Idle?
    case Give(_) => r.scan.Filling? && HasRoom(r)
    case EndFill => r.scan.Filling?
    case BeginDrain => r.scan.Idle?
    case Take => r.scan.Draining? && CanDrain(r, tx)
    case EndDrain => r.scan.Draining?
    case DeviceFinishes(j) => j < Size(r) && r.armed[j]
  }

  ghost predicate Fifo<T>(s: History<T>) {
    Valid(s.r) && s.taken + Window(s.r) == s.given
  }

  /** One event; taking out is only possible where the loop's guard and a finished descriptor allow it. */
  function Apply<T>(s: History<T>, e: Event<T>, tx: bool): History<T>
    requires Valid(s.r) && Enabled(s.r, e, tx)
  {
    match e
    case BeginFill => s.(r := FillBegin(s.r))
    case Give(x) => History(Fill(s.r, x), s.given + [x], s.taken)
    case EndFill => s.(r := FillEnd(s.r))
    case BeginDrain => s.(r := DrainBegin(s.r))
    case Take =>
      DrainFindsPacket(s.r, tx);
      History(Drain(s.r), s.given, s.taken + [s.r.buffer[s.r.scan.i].value])
    case EndDrain => s.(r := DrainEnd(s.r))
    case DeviceFinishes(j) => s.(r := Finish(s.r, j))
  }

  lemma ApplyKeepsFifo<T>(s: History<T>, e: Event<T>, tx: bool)
    requires Fifo(s) && Enabled(s.r, e, tx)
    ensures Fifo(Apply(s, e, tx)) && Size(Apply(s, e, tx).r) == Size(s.r)
  {
    hide Valid, Window, HasRoom, CanDrain;
    RingFacts(s.r);
    match e
    case BeginFill => BeginKeeps(s.r);
    case Give(x) =>
      FillKeeps(s.r, x);
      assert s.taken + (Window(s.r) + [x]) == s.taken + Window(s.r) + [x];
    case EndFill => FillEndKeeps(s.r);
    case BeginDrain => BeginKeeps(s.r);
    case Take =>
      DrainKeeps(s.r, tx);
      var x := s.r.buffer[s.r.scan.i].value;
      assert s.taken + ([x] + Window(Drain(s.r))) == s.taken + [x] + Window(Drain(s.r));
    case EndDrain => DrainEndKeeps(s.r);
    case DeviceFinishes(j) => FinishKeeps(s.r, j);
  }

  /** Any interleaving of the filling loop, the draining loop and the device, from ring_create: packets come
      out in the order they were put in, each exactly once, and every reachable state is valid. */
  function Run<T>(size: nat, events: seq<Event<T>>, tx: bool): (s: History<T>)
    requires 0 < size
    ensures Fifo(s) && Size(s.r) == size
    ensures s.taken <= s.given && |s.given| - |s.taken| < size
    ensures forall j | 0 <= j < size ::
              && (s.r.buffer[j].Some? <==> Between(Front(s.r), j, Back(s.r), size))
              && (s.r.done[j] || s.r.armed[j] <==> Between(Front(s.r), j, s.r.tail, size))
    decreases |events|
  {
    if events == [] then
      CreateIsEmpty<T>(size);
      History(Create(size), [], [])
    else
      var s0 := Run(size, events[..|events| - 1], tx);
      var e := events[|events| - 1];
      if Enabled(s0.r, e, tx) then
        ApplyKeepsFifo(s0, e, tx);
        RingFacts(Apply(s0, e, tx).r);
        Apply(s0, e, tx)
      else s0
  }
}
