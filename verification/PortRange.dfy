/** uspace/src/port_range.c: a range of ports kept as a cyclic buffer of its free ports, in network byte order. */
module PortRange {
  import opened Common
  import opened Cyclic

  const RESERVED_PORTS_MAX: nat := 1023

  /** htons and ntohs on a little-endian machine */
  function SwapBytes(p: nat): nat {
    256 * (p % 256) + p / 256
  }

  lemma SwapTwice(p: nat)
    requires p < 0x1_0000
    ensures SwapBytes(p) < 0x1_0000 && SwapBytes(SwapBytes(p)) == p
  {
    var low, high := p % 256, p / 256;
    assert (256 * low + high) % 256 == high && (256 * low + high) / 256 == low;
  }

  // ---------- the free ports, oldest first ----------

  datatype Got = Got(port: nat, free: seq<nat>)

  function GetAny(free: seq<nat>): Got {
    if free == [] then Got(0, free) else Got(free[0], free[1..])
  }

  function IndexOf(free: seq<nat>, port: nat): (i: nat)
    requires port in free
    ensures i < |free| && free[i] == port && port !in free[..i]
  {
    if free[0] == port then 0 else 1 + IndexOf(free[1..], port)
  }

  /** A given port, which must be a reserved one; the oldest free port takes its place. */
  function GetThis(free: seq<nat>, port: nat): Got {
    if SwapBytes(port) > RESERVED_PORTS_MAX || port !in free then Got(0, free)
    else Got(port, free[IndexOf(free, port) := free[0]][1..])
  }

  function Get(free: seq<nat>, port: nat): Got {
    if port == 0 then GetAny(free) else GetThis(free, port)
  }

  function Put(free: seq<nat>, port: nat): seq<nat> {
    if port == 0 then free else free + [port]
  }

  /** The ports from low to up as port_range_init stores them. */
  function PortsBetween(low: nat, up: nat): seq<nat>
    decreases up + 1 - low
  {
    if low > up then [] else (if SwapBytes(low) == 0 then [] else [SwapBytes(low)]) + PortsBetween(low + 1, up)
  }

  class PortRange {
    const size: nat
    var get: nat
    var put: nat
    var avail: nat
    const ports: array<nat>

    ghost predicate Valid()
      reads this
    {
      size == ports.Length && get < size && put < size && avail == Off(get, put, size)
    }

    ghost function Free(): (r: seq<nat>)
      requires Valid()
      reads this, ports
      ensures |r| == avail
    {
      Slots(ports[..], get, put)
    }

    /** port_range_create; one slot more than there are ports, so that a full range is not taken for an empty one. */
    constructor (n: nat)
      ensures Valid() && fresh(ports) && size == n + 1 && Free() == []
    {
      size := n + 1;
      ports := new nat[n + 1](_ => 0);
      get, put, avail := 0, 0, 0;
    }

    method GetPort1() returns (ret: nat)
      requires Valid()
      modifies this`get, this`avail
      ensures Valid() && Got(ret, Free()) == GetAny(old(Free()))
      ensures if old(Free()) == [] then ret == 0 && Free() == [] else [ret] + Free() == old(Free())
    {
      if avail == 0 { return 0; }
      SlotsPop(ports[..], get, put);
      ret := ports[get];
      get := get + 1;
      if get >= size { get := 0; }
      avail := avail - 1;
    }

    method PutPort(port: nat)
      requires Valid() && (port != 0 ==> |Free()| + 1 < size)
      modifies this`put, this`avail, ports
      ensures Valid() && Free() == Put(old(Free()), port)
    {
      if port == 0 { return; }
      SlotsPush(ports[..], get, put, port);
      ports[put] := port;
      avail := avail + 1;
      put := put + 1;
      if put >= size { put := 0; }
    }

    /** Puts the oldest free port in the place of the one at i, and moves on. */
    method TakeAt(i: nat)
      requires Valid() && i < size && Off(get, i, size) < avail
      modifies this`get, this`avail, ports
      ensures Valid() && Free() == old(Free())[Off(old(get), i, size) := old(Free())[0]][1..]
    {
      SwapIn(ports[..], get, put, i);
      assert Free()[0] == ports[get];
      ports[i] := ports[get];
      var _ := GetPort1();
    }

    /** port_range_get_port2 */
    method GetPort2(port: nat) returns (ret: nat)
      requires Valid()
      modifies this`get, this`avail, ports
      ensures Valid() && Got(ret, Free()) == GetThis(old(Free()), port)
    {
      hide Slots, IndexOf, SwapBytes;
      if SwapBytes(port) > RESERVED_PORTS_MAX { return 0; }
      var i: nat := get;
      ghost var desc, free := ports[..], Free();
      while i != put
        invariant unchanged(this) && ports[..] == desc && free == Slots(desc, get, put)
        invariant i < size && Off(get, i, size) <= avail
        invariant port !in free[..Off(get, i, size)]
        decreases Off(i, put, size)
      {
        SlotAt(desc, get, put, i);
        if ports[i] == port {
          Found(free, Off(get, i, size), port);
          TakeAt(i);
          return port;
        }
        assert free[..Off(get, i, size) + 1] == free[..Off(get, i, size)] + [ports[i]];
        NextIsModulo(i, size);
        i := (i + 1) % size;
      }
      assert free[..avail] == free;
      ret := 0;
    }

    method GetPort(port: nat) returns (ret: nat)
      requires Valid()
      modifies this`get, this`avail, ports
      ensures Valid() && Got(ret, Free()) == Get(old(Free()), port)
    {
      if port == 0 { ret := GetPort1(); } else { ret := GetPort2(port); }
    }

    /** port_range_init */
    method Init(port1: nat, port2: nat)
      requires Valid() && |Free()| + port2 + 1 - port1 < size
      modifies this`put, this`avail, ports
      ensures Valid() && Free() == old(Free()) + PortsBetween(port1, port2)
    {
      var i := port1;
      while i <= port2
        invariant Valid() && port1 <= i && |Free()| + (if i <= port2 then port2 + 1 - i else 0) < size
        invariant Free() + PortsBetween(i, port2) == old(Free()) + PortsBetween(port1, port2)
        decreases port2 + 1 - i
      {
        PutPort(SwapBytes(i));
        i := i + 1;
      }
    }
  }

  lemma {:induction false} Found(free: seq<nat>, i: nat, port: nat)
    requires i < |free| && free[i] == port && port !in free[..i]
    ensures IndexOf(free, port) == i
  {
    if i > 0 {
      assert free[..i][0] == free[0];
      assert free[..i] == [free[0]] + free[1..][..i - 1];
      Found(free[1..], i - 1, port);
    }
  }

  lemma SlotAt(desc: seq<nat>, from: nat, to: nat, i: nat)
    requires from < |desc| && to < |desc| && i < |desc| && Off(from, i, |desc|) < Off(from, to, |desc|)
    ensures Slots(desc, from, to)[Off(from, i, |desc|)] == desc[i]
  {
  }

  lemma SwapIn(desc: seq<nat>, from: nat, to: nat, i: nat)
    requires from < |desc| && to < |desc| && i < |desc| && Off(from, i, |desc|) < Off(from, to, |desc|)
    ensures var free := Slots(desc, from, to);
            Slots(desc[i := desc[from]], from, to) == free[Off(from, i, |desc|) := free[0]]
  {
  }

  // ---------- no port is lost or handed out twice ----------

  /** A port handed out, or one given back. */
  datatype Event = Taken(wanted: nat) | GivenBack(port: nat)

  datatype Ports = Ports(free: seq<nat>, held: set<nat>)

  ghost predicate Allowed(s: Ports, e: Event) {
    e.GivenBack? ==> e.port in s.held
  }

  function After(s: Ports, e: Event): Ports {
    match e
    case Taken(wanted) =>
      var got := Get(s.free, wanted);
      Ports(got.free, if got.port == 0 then s.held else s.held + {got.port})
    case GivenBack(port) => Ports(Put(s.free, port), s.held - {port})
  }

  function Members(s: seq<nat>): set<nat> {
    set p | p in s
  }

  /** Free and held ports are all different and together the whole initial range; 0 is not a port. */
  ghost predicate Conserved(initial: set<nat>, s: Ports) {
    Distinct(s.free) && Members(s.free) !! s.held && Members(s.free) + s.held == initial && 0 !in initial
  }

  ghost predicate AllAllowed(s: Ports, run: seq<Event>)
    decreases |run|
  {
    run == [] || (Allowed(s, run[0]) && AllAllowed(After(s, run[0]), run[1..]))
  }

  function AfterAll(s: Ports, run: seq<Event>): Ports
    decreases |run|
  {
    if run == [] then s else AfterAll(After(s, run[0]), run[1..])
  }

  lemma {:induction false} GetAnyConserves(initial: set<nat>, s: Ports)
    requires Conserved(initial, s) && s.free != []
    ensures GetAny(s.free).port !in s.held
    ensures Conserved(initial, Ports(s.free[1..], s.held + {s.free[0]}))
  {
    assert s.free[0] in Members(s.free);
    assert Members(s.free) == Members(s.free[1..]) + {s.free[0]} by { assert s.free == [s.free[0]] + s.free[1..]; }
  }

  lemma {:induction false} GetThisConserves(initial: set<nat>, s: Ports, port: nat)
    requires Conserved(initial, s) && port in s.free
    ensures port !in s.held
    ensures Conserved(initial, Ports(s.free[IndexOf(s.free, port) := s.free[0]][1..], s.held + {port}))
  {
    assert port in Members(s.free);
    var i := IndexOf(s.free, port);
    var left := s.free[i := s.free[0]][1..];
    forall k | 0 <= k < |left| ensures left[k] == if k + 1 == i then s.free[0] else s.free[k + 1] {}
    forall p | p in Members(s.free) && p != port ensures p in Members(left) {
      var k :| 0 <= k < |s.free| && s.free[k] == p;
      if k == 0 { assert left[i - 1] == p; } else { assert left[k - 1] == p; }
    }
    forall p | p in Members(left) ensures p in Members(s.free) && p != port {
      var k :| 0 <= k < |left| && left[k] == p;
    }
  }

  lemma {:induction false} EventConserves(initial: set<nat>, s: Ports, e: Event)
    requires Conserved(initial, s) && Allowed(s, e)
    ensures Conserved(initial, After(s, e))
    ensures e.Taken? && Get(s.free, e.wanted).port != 0 ==> Get(s.free, e.wanted).port in s.free
  {
    match e
    case Taken(wanted) =>
      if wanted == 0 {
        if s.free != [] { GetAnyConserves(initial, s); }
      } else if wanted in s.free {
        GetThisConserves(initial, s, wanted);
      }
    case GivenBack(port) =>
      assert Members(s.free + [port]) == Members(s.free) + {port};
  }

  /** Over any run of takes and returns of held ports, starting from a full range. */
  lemma {:induction false} RunConserves(initial: set<nat>, s: Ports, run: seq<Event>)
    requires Conserved(initial, s) && AllAllowed(s, run)
    ensures Conserved(initial, AfterAll(s, run))
    decreases |run|
  {
    hide Conserved, Allowed, After;
    if run != [] {
      EventConserves(initial, s, run[0]);
      RunConserves(initial, After(s, run[0]), run[1..]);
    }
  }

  // ---------- the order of the ports ----------

  /** A reserved port is handed out if it is free, and then the oldest free port takes its place in the order. */
  lemma {:induction false} GetThisOrder(before: seq<nat>, port: nat, behind: seq<nat>)
    requires port !in before
    ensures GetThis(before + [port] + behind, port) ==
            if 256 * (port % 256) + port / 256 > 1023 then Got(0, before + [port] + behind)
            else Got(port, if before == [] then behind else before[1..] + [before[0]] + behind)
    ensures port !in behind ==> GetThis(before + behind, port) == Got(0, before + behind)
  {
    var free, i := before + [port] + behind, |before|;
    assert free[..i] == before;
    Found(free, i, port);
    if before == [] {
      assert free[0 := free[0]][1..] == behind;
    } else {
      assert free[i := free[0]][1..] == before[1..] + [before[0]] + behind;
    }
  }

  /** What one event hands out, and what it gives back. */
  function HandedOne(s: Ports, e: Event): seq<nat> {
    if e.Taken? && Get(s.free, e.wanted).port != 0 then [Get(s.free, e.wanted).port] else []
  }

  function ReturnedOne(e: Event): seq<nat> {
    if e.GivenBack? && e.port != 0 then [e.port] else []
  }

  function Handed(s: Ports, run: seq<Event>): seq<nat>
    decreases |run|
  {
    if run == [] then [] else HandedOne(s, run[0]) + Handed(After(s, run[0]), run[1..])
  }

  function Returned(run: seq<Event>): seq<nat> {
    if run == [] then [] else ReturnedOne(run[0]) + Returned(run[1..])
  }

  lemma OneInOrder(s: Ports, e: Event)
    requires 0 !in s.free && (e.Taken? ==> e.wanted == 0)
    ensures HandedOne(s, e) + After(s, e).free == s.free + ReturnedOne(e) && 0 !in After(s, e).free
  {
  }

  /** Callers that take any port get the free ones in the order in which they were given back. */
  lemma {:induction false} OldestFirst(s: Ports, run: seq<Event>)
    requires 0 !in s.free && forall k | 0 <= k < |run| :: run[k].Taken? ==> run[k].wanted == 0
    ensures Handed(s, run) + AfterAll(s, run).free == s.free + Returned(run)
    decreases |run|
  {
    hide HandedOne, ReturnedOne, After;
    if run != [] {
      var s' := After(s, run[0]);
      OneInOrder(s, run[0]);
      OldestFirst(s', run[1..]);
      Regroup(HandedOne(s, run[0]), Handed(s', run[1..]), AfterAll(s', run[1..]).free, s'.free, Returned(run[1..]),
              s.free, ReturnedOne(run[0]));
    }
  }

  lemma Regroup(one: seq<nat>, more: seq<nat>, end: seq<nat>, next: seq<nat>, back: seq<nat>, free: seq<nat>,
                first: seq<nat>)
    requires more + end == next + back && one + next == free + first
    ensures one + more + end == free + (first + back)
  {
    assert one + more + end == one + (more + end);
    assert one + (next + back) == one + next + back;
    assert free + first + back == free + (first + back);
  }

  /** The initial ports go up, each in network byte order. */
  lemma {:induction false} PortsInOrder(low: nat, up: nat)
    requires 0 < low
    ensures |PortsBetween(low, up)| == if low <= up then up + 1 - low else 0
    ensures forall k | 0 <= k < |PortsBetween(low, up)| ::
              PortsBetween(low, up)[k] == 256 * ((low + k) % 256) + (low + k) / 256
    decreases up + 1 - low
  {
    if low <= up {
      PortsInOrder(low + 1, up);
      SwappedIs(low);
      hide SwapBytes;
      var rest := PortsBetween(low + 1, up);
      assert PortsBetween(low, up) == [SwapBytes(low)] + rest;
      forall k | 0 <= k < |PortsBetween(low, up)|
        ensures PortsBetween(low, up)[k] == 256 * ((low + k) % 256) + (low + k) / 256
      {
        if k > 0 {
          assert PortsBetween(low, up)[k] == rest[k - 1];
          assert low + 1 + (k - 1) == low + k;
        }
      }
    }
  }

  lemma SwappedIs(p: nat)
    ensures SwapBytes(p) == 256 * (p % 256) + p / 256 && (p > 0 ==> SwapBytes(p) > 0)
  {
  }

  lemma {:induction false} DistinctCount(s: seq<nat>)
    requires Distinct(s)
    ensures |Members(s)| == |s|
  {
    if s != [] {
      DistinctCount(s[1..]);
      assert s == [s[0]] + s[1..];
      assert Members(s) == Members(s[1..]) + {s[0]};
    }
  }

  /** The buffer has room for every held port, so that giving it back never overwrites a free one. */
  lemma {:induction false} RoomForHeld(initial: set<nat>, s: Ports, n: nat, port: nat)
    requires Conserved(initial, s) && port in s.held && |initial| <= n
    ensures |s.free| < n
  {
    DistinctCount(s.free);
    ProperSubset(Members(s.free), initial, port);
  }

  lemma ProperSubset(a: set<nat>, b: set<nat>, x: nat)
    requires a <= b && x in b && x !in a
    ensures |a| < |b|
  {
    SubsetSize(a, b - {x});
  }

  lemma OneMorePort(low: nat, up: nat)
    requires low <= up
    ensures PortsBetween(low, up) ==
            (if SwapBytes(low) == 0 then [] else [SwapBytes(low)]) + PortsBetween(low + 1, up)
  {
  }

  lemma ZeroSwapped()
    ensures SwapBytes(0) == 0
  {
  }

  /** port_range_init fills the range with different ports, none of them 0. */
  lemma {:induction false} InitialPorts(low: nat, up: nat)
    requires up < 0x1_0000
    ensures Distinct(PortsBetween(low, up)) && 0 !in PortsBetween(low, up)
    ensures forall p {:trigger p in PortsBetween(low, up)} | p in PortsBetween(low, up) ::
              p < 0x1_0000 && low <= SwapBytes(p) <= up
    ensures forall q: nat | low <= q <= up && q > 0 :: SwapBytes(q) in PortsBetween(low, up)
    decreases up + 1 - low
  {
    hide SwapBytes;
    if low <= up {
      InitialPorts(low + 1, up);
      SwapTwice(low);
      ZeroSwapped();
      OneMorePort(low, up);
      var rest := PortsBetween(low + 1, up);
      assert SwapBytes(low) in rest ==> low + 1 <= SwapBytes(SwapBytes(low));
    }
  }
}
