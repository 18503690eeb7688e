/**
 * Where things are in the buffer that all processes map: the n * n queues (lf_queue.c), then the packets of the
 * processes' zones (packet.c, main.c); and which local ports belong to which process (dispatch.c).
 */
module Layout {

  const ALIGN_BYTES: nat := 64
  const PACKET_SIZE: nat := 2048
  const PACKET_OFFSET: nat := 1792

  /** Sizes that the compiler and the system decide: struct lf_queue, struct packet, and a page. */
  datatype Sizes = Sizes(queueHeader: nat, packetInfo: nat, page: nat)

  ghost predicate Usable(s: Sizes) {
    s.page > 0 && PACKET_OFFSET + s.packetInfo <= PACKET_SIZE
  }

  // ---------- multiplication ----------

  lemma {:induction false} Monotone(a: nat, b: nat, size: nat)
    requires a < b
    ensures a * size + size <= b * size
    decreases b
  {
    Successor(b - 1, size);
    if a < b - 1 { Monotone(a, b - 1, size); }
  }

  lemma Successor(a: nat, size: nat)
    ensures (a + 1) * size == a * size + size
  {
  }

  lemma {:induction false} RowMajor(n: nat, r: nat, c: nat, r': nat, c': nat)
    requires c < n && c' < n && r * n + c == r' * n + c'
    ensures r == r' && c == c'
  {
    if r < r' { Monotone(r, r', n); }
    if r' < r { Monotone(r', r, n); }
  }

  lemma {:induction false} InSquare(n: nat, r: nat, c: nat)
    requires r < n && c < n
    ensures r * n + c < n * n
  {
    Monotone(r, n, n);
  }

  lemma RoundedUp(total: nat, unit: nat)
    requires unit > 0
    ensures total <= (total + unit - 1) / unit * unit
  {
    var x := total + unit - 1;
    assert x == x / unit * unit + x % unit;
  }

  // ---------- no more than needed ----------

  /** Rounding up takes the least multiple. */
  lemma {:induction false} LeastMultiple(total: nat, unit: nat, k: nat)
    requires unit > 0
    ensures total <= k * unit <==> (total + unit - 1) / unit <= k
  {
    var x, q := total + unit - 1, (total + unit - 1) / unit;
    assert x == q * unit + x % unit;
    if k < q { Monotone(k, q, unit); }
    if q < k { Monotone(q, k, unit); }
  }

  /** A queue takes the least multiple of 64 bytes that holds its header and 8 bytes for each descriptor. */
  lemma {:induction false} QueueSizeLeast(s: Sizes, descNum: nat, k: nat)
    ensures s.queueHeader + 8 * descNum <= k * 64 <==> QueueSize(s, descNum) <= k * 64
  {
    LeastMultiple(s.queueHeader + 8 * descNum, 64, k);
  }

  /** All queues together take the least number of pages. */
  lemma {:induction false} ModuleSizeLeast(s: Sizes, n: nat, descNum: nat, k: nat)
    requires s.page > 0
    ensures n * n * QueueSize(s, descNum) <= k * s.page <==> ModuleSize(s, n, descNum) <= k * s.page
  {
    hide QueueSize;
    var total := QueueSize(s, descNum) * (n * n);
    assert n * n * QueueSize(s, descNum) == total;
    LeastMultiple(total, s.page, k);
    var q := (total + s.page - 1) / s.page;
    if k < q { Monotone(k, q, s.page); }
    if q < k { Monotone(q, k, s.page); }
  }

  /** Every zone gets as many packets of 2048 bytes as all zones can have. */
  lemma {:induction false} ZoneCountMost(size: nat, n: nat, k: nat)
    requires n > 0
    ensures n * k * 2048 <= size <==> k <= ZoneCount(size, n)
  {
    var slots := size / PACKET_SIZE;
    assert n * k <= slots <==> n * k * 2048 <= size;
    assert n * k == k * n;
    var q := slots / n;
    assert slots == q * n + slots % n;
    if q < k { Monotone(q, k, n); }
    if k < q { Monotone(k, q, n); }
  }

  // ---------- the queues ----------

  function Aligned(size: nat): (r: nat)
    ensures size <= r && r % ALIGN_BYTES == 0
  {
    (size + ALIGN_BYTES - 1) / ALIGN_BYTES * ALIGN_BYTES
  }

  /** lf_queue_aligned_size */
  function QueueSize(s: Sizes, descNum: nat): (size: nat)
    ensures s.queueHeader + 8 * descNum <= size && size % ALIGN_BYTES == 0
  {
    Aligned(s.queueHeader + 8 * descNum)
  }

  /** __lfq_module_size */
  function ModuleSize(s: Sizes, n: nat, descNum: nat): nat
    requires s.page > 0
  {
    (QueueSize(s, descNum) * (n * n) + s.page - 1) / s.page * s.page
  }

  /** lfq_queue_create_init: the queue that process row receives from and process column sends to. */
  function QueueAt(s: Sizes, start: nat, n: nat, descNum: nat, row: nat, column: nat): nat {
    start + (row * n + column) * QueueSize(s, descNum)
  }

  /** What lfq_module_init of process id sets up. */
  datatype Queues = Queues(recv: seq<nat>, send: seq<nat>)

  method LfqModuleInit(s: Sizes, n: nat, id: nat, descNum: nat, start: nat) returns (q: Queues)
    requires id < n
    ensures |q.recv| == |q.send| == n
    ensures forall i | 0 <= i < n :: q.recv[i] == QueueAt(s, start, n, descNum, id, i)
    ensures forall i | 0 <= i < n :: q.send[i] == QueueAt(s, start, n, descNum, i, id)
  {
    var recv, send: seq<nat> := [], [];
    for i: nat := 0 to n
      invariant |recv| == |send| == i
      invariant forall k | 0 <= k < i :: recv[k] == QueueAt(s, start, n, descNum, id, k)
      invariant forall k | 0 <= k < i :: send[k] == QueueAt(s, start, n, descNum, k, id)
    {
      recv := recv + [QueueAt(s, start, n, descNum, id, i)];
      send := send + [QueueAt(s, start, n, descNum, i, id)];
    }
    q := Queues(recv, send);
  }

  /** Every queue has one sender and one receiver: who else holds its address holds it in the same role. */
  lemma {:induction false} OneWriterOneReader(s: Sizes, n: nat, descNum: nat, start: nat, p: nat, q: nat,
                                              p': nat, q': nat)
    requires p < n && q < n && p' < n && q' < n && QueueSize(s, descNum) > 0
    ensures QueueAt(s, start, n, descNum, q, p) == QueueAt(s, start, n, descNum, q', p') <==> p == p' && q == q'
  {
    var size := QueueSize(s, descNum);
    var a, b := q * n + p, q' * n + p';
    if a < b { Monotone(a, b, size); }
    if b < a { Monotone(b, a, size); }
    if a == b { RowMajor(n, q, p, q', p'); }
  }

  // ---------- the zones ----------

  /** Packets in each process's zone, from the bytes behind the queues. */
  function ZoneCount(size: nat, n: nat): nat
    requires n > 0
  {
    size / PACKET_SIZE / n
  }

  /** A packet's slot in the order of all zones. */
  function SlotNumber(size: nat, n: nat, id: nat, i: nat): nat
    requires n > 0
  {
    id * ZoneCount(size, n) + i
  }

  /** What packet_init writes down; data is the address of the slot in the process that fills its zone. */
  datatype Info = Info(data: nat, phys: nat, id: nat)

  /** packet_module_init and pool_add_packets of process id, whose mapping of the packet memory starts at start. */
  method PoolAddPackets(start: nat, phys: nat, size: nat, n: nat, id: nat) returns (pool: seq<Info>)
    requires id < n
    ensures |pool| == ZoneCount(size, n)
    ensures forall i | 0 <= i < |pool| ::
              pool[i] == Info(start + SlotNumber(size, n, id, i) * PACKET_SIZE,
                              phys + SlotNumber(size, n, id, i) * PACKET_SIZE, id)
  {
    var num := ZoneCount(size, n);
    var zone := num * PACKET_SIZE;
    var data, addr := start + zone * id, phys + zone * id;
    ZoneStart(num, id);
    pool := [];
    for i: nat := 0 to zone / PACKET_SIZE
      invariant |pool| == i && data == start + (id * num + i) * PACKET_SIZE
      invariant addr == phys + (id * num + i) * PACKET_SIZE
      invariant forall k | 0 <= k < i ::
                  pool[k] == Info(start + SlotNumber(size, n, id, k) * PACKET_SIZE,
                                  phys + SlotNumber(size, n, id, k) * PACKET_SIZE, id)
    {
      pool := pool + [Info(data, addr, id)];
      data := data + PACKET_SIZE;
      addr := addr + PACKET_SIZE;
    }
  }

  lemma ZoneStart(num: nat, id: nat)
    ensures num * PACKET_SIZE * id == id * num * PACKET_SIZE && num * PACKET_SIZE / PACKET_SIZE == num
  {
    assert num * PACKET_SIZE * id == num * id * PACKET_SIZE;
    assert num * id == id * num;
  }

  /** packet_of_phys, in a process that maps the packet memory at start */
  function PacketOfPhys(start: nat, physAll: nat, phys: nat): int {
    start + (phys - physAll) + PACKET_OFFSET
  }

  /** A physical address leads every process to the same packet, whoever set the packet up. */
  lemma {:induction false} PhysInverse(startP: nat, startQ: nat, physAll: nat, size: nat, n: nat, id: nat, i: nat)
    requires id < n && i < ZoneCount(size, n)
    ensures var g := SlotNumber(size, n, id, i);
            && PacketOfPhys(startP, physAll, physAll + g * PACKET_SIZE) == startP + g * PACKET_SIZE + PACKET_OFFSET
            && PacketOfPhys(startP, physAll, physAll + g * PACKET_SIZE) - startP ==
               PacketOfPhys(startQ, physAll, physAll + g * PACKET_SIZE) - startQ
  {
  }

  lemma {:induction false} SlotInRange(size: nat, n: nat, id: nat, i: nat)
    requires id < n && i < ZoneCount(size, n)
    ensures SlotNumber(size, n, id, i) * PACKET_SIZE + PACKET_SIZE <= size
  {
    var total := size / PACKET_SIZE;
    var num := total / n;
    Monotone(id, n, num);
    assert num * n <= total;
    assert n * num == num * n;
    assert (id * num + i + 1) * PACKET_SIZE <= total * PACKET_SIZE <= size;
  }

  lemma {:induction false} SlotsDiffer(size: nat, n: nat, id: nat, i: nat, id': nat, i': nat)
    requires id < n && i < ZoneCount(size, n) && id' < n && i' < ZoneCount(size, n)
    requires SlotNumber(size, n, id, i) == SlotNumber(size, n, id', i')
    ensures id == id' && i == i'
  {
    RowMajor(ZoneCount(size, n), id, i, id', i');
  }

  // ---------- the whole buffer ----------

  /** The pieces of the buffer: a queue, or the slot of a packet. */
  datatype Piece = Queue(row: nat, column: nat) | Slot(id: nat, i: nat)

  /** The buffer as init carves it up (main.c): queues of 1024 descriptors first, the rest for packets. */
  datatype Buffer = Buffer(start: nat, total: nat, n: nat, descNum: nat, sizes: Sizes) {
    ghost predicate Valid() {
      Usable(sizes) && n > 0 && QueueSize(sizes, descNum) > 0 && ModuleSize(sizes, n, descNum) <= total
    }

    function Used(): nat
      requires sizes.page > 0
    {
      ModuleSize(sizes, n, descNum)
    }

    ghost predicate Has(p: Piece)
      requires Valid()
    {
      match p
      case Queue(r, c) => r < n && c < n
      case Slot(id, i) => id < n && i < ZoneCount(total - Used(), n)
    }

    ghost function Start(p: Piece): nat
      requires Valid() && Has(p)
    {
      match p
      case Queue(r, c) => QueueAt(sizes, start, n, descNum, r, c)
      case Slot(id, i) => start + Used() + SlotNumber(total - Used(), n, id, i) * PACKET_SIZE
    }

    ghost function End(p: Piece): nat
      requires Valid() && Has(p)
    {
      Start(p) + if p.Queue? then QueueSize(sizes, descNum) else PACKET_SIZE
    }
  }

  lemma {:induction false} QueueInside(s: Sizes, start: nat, n: nat, descNum: nat, r: nat, c: nat)
    requires r < n && c < n && s.page > 0
    ensures start <= QueueAt(s, start, n, descNum, r, c)
    ensures QueueAt(s, start, n, descNum, r, c) + QueueSize(s, descNum) <= start + ModuleSize(s, n, descNum)
  {
    hide QueueSize;
    var size := QueueSize(s, descNum);
    InSquare(n, r, c);
    Monotone(r * n + c, n * n, size);
    RoundedUp(size * (n * n), s.page);
    assert n * n * size == size * (n * n);
  }

  lemma {:induction false} PieceInside(b: Buffer, p: Piece)
    requires b.Valid() && b.Has(p)
    ensures b.start <= b.Start(p) < b.End(p) <= b.start + b.total
    ensures p.Queue? ==> b.End(p) <= b.start + b.Used()
    ensures p.Slot? ==> b.start + b.Used() <= b.Start(p)
  {
    hide QueueAt, QueueSize, ModuleSize, SlotNumber, ZoneCount;
    match p
    case Queue(r, c) => QueueInside(b.sizes, b.start, b.n, b.descNum, r, c);
    case Slot(id, i) => SlotInRange(b.total - b.Used(), b.n, id, i);
  }

  lemma {:induction false} QueuesApart(s: Sizes, start: nat, n: nat, descNum: nat, r: nat, c: nat, r': nat, c': nat)
    requires c < n && c' < n && (r != r' || c != c')
    ensures var a, b, size := QueueAt(s, start, n, descNum, r, c), QueueAt(s, start, n, descNum, r', c'),
                              QueueSize(s, descNum);
            a + size <= b || b + size <= a
  {
    hide QueueSize;
    var x, y := r * n + c, r' * n + c';
    if x == y { RowMajor(n, r, c, r', c'); }
    Apart(start, x, y, QueueSize(s, descNum));
  }

  lemma Apart(start: nat, x: nat, y: nat, size: nat)
    requires x != y
    ensures start + x * size + size <= start + y * size || start + y * size + size <= start + x * size
  {
    if x < y { Monotone(x, y, size); } else { Monotone(y, x, size); }
  }

  lemma {:induction false} QueuesDisjoint(b: Buffer, p: Piece, q: Piece)
    requires b.Valid() && b.Has(p) && b.Has(q) && p != q && p.Queue? && q.Queue?
    ensures b.End(p) <= b.Start(q) || b.End(q) <= b.Start(p)
  {
    hide QueueAt, QueueSize, ModuleSize;
    QueuesApart(b.sizes, b.start, b.n, b.descNum, p.row, p.column, q.row, q.column);
  }

  lemma {:induction false} SlotsDisjoint(b: Buffer, p: Piece, q: Piece)
    requires b.Valid() && b.Has(p) && b.Has(q) && p != q && p.Slot? && q.Slot?
    ensures b.End(p) <= b.Start(q) || b.End(q) <= b.Start(p)
  {
    hide SlotNumber, ZoneCount, ModuleSize;
    var size := b.total - b.Used();
    var x, y := SlotNumber(size, b.n, p.id, p.i), SlotNumber(size, b.n, q.id, q.i);
    if x == y { SlotsDiffer(size, b.n, p.id, p.i, q.id, q.i); }
    if x < y { Monotone(x, y, PACKET_SIZE); }
    if y < x { Monotone(y, x, PACKET_SIZE); }
  }

  /** Different queues and packets never share a byte, whatever process they belong to. */
  lemma {:induction false} PiecesDisjoint(b: Buffer, p: Piece, q: Piece)
    requires b.Valid() && b.Has(p) && b.Has(q) && p != q
    ensures b.End(p) <= b.Start(q) || b.End(q) <= b.Start(p)
  {
    PieceInside(b, p);
    PieceInside(b, q);
    if p.Queue? && q.Queue? { QueuesDisjoint(b, p, q); }
    if p.Slot? && q.Slot? { SlotsDisjoint(b, p, q); }
  }

  // ---------- the local ports of a process ----------

  const PORT_BASE: nat := 1024

  /** port_slice of dispatch_module_init; with more than 64511 processes it would be 0. */
  function Slice(n: nat): (s: nat)
    requires 0 < n <= 64511
    ensures s > 0 && n * s <= 64511
  {
    SliceFits(n);
    64511 / n
  }

  lemma SliceFits(n: nat)
    requires 0 < n <= 64511
    ensures 64511 / n > 0 && n * (64511 / n) <= 64511
  {
  }

  function Low(n: nat, id: nat): nat
    requires 0 < n <= 64511
  {
    id * Slice(n) + PORT_BASE
  }

  function High(n: nat, id: nat): nat
    requires 0 < n <= 64511
  {
    Low(n, id) + Slice(n) - 1
  }

  /** The ranges follow each other from port 1024 on, and fewer than n of the ports below 65535 are in none of them. */
  lemma {:induction false} RangesTile(n: nat, id: nat)
    requires id < n <= 64511
    ensures Low(n, 0) == 1024 && Low(n, id + 1) == High(n, id) + 1
    ensures Low(n, n) <= 65535 < Low(n, n) + n
  {
    Successor(id, Slice(n));
    assert 64511 == 64511 / n * n + 64511 % n;
    assert n * Slice(n) == 64511 / n * n;
  }

  /** dispatch_port_to_id, with C's division, which drops the remainder also of a negative number. */
  function PortToId(n: nat, port: nat): int
    requires 0 < n <= 64511
  {
    if port >= PORT_BASE then (port - PORT_BASE) / Slice(n) else -((PORT_BASE - port) / Slice(n))
  }

  /** The ranges fit into 16 bits, and the port of a range leads back to the process it was given to. */
  lemma {:induction false} PortsComeBack(n: nat, id: nat, port: nat)
    requires id < n <= 64511 && PORT_BASE <= port
    ensures High(n, id) < 65535
    ensures PortToId(n, port) == id <==> Low(n, id) <= port <= High(n, id)
  {
    var s := Slice(n);
    Monotone(id, n, s);
    Quotient(port - PORT_BASE, s, id);
  }

  lemma {:induction false} Quotient(x: nat, s: nat, q: nat)
    requires s > 0
    ensures x / s == q <==> q * s <= x < q * s + s
  {
    var d, m := x / s, x % s;
    assert x == d * s + m;
    if d < q { Monotone(d, q, s); }
    if q < d { Monotone(q, d, s); }
  }

  lemma {:induction false} Below(x: nat, s: nat, n: nat)
    requires s > 0
    ensures x / s < n <==> x < n * s
  {
    var d := x / s;
    Quotient(x, s, d);
    if d < n { Monotone(d, n, s); }
    if n < d { Monotone(n, d, s); }
  }

  lemma {:induction false} PortAbove(port: nat, s: nat, n: nat)
    requires port >= PORT_BASE && s > 0
    ensures 0 <= (port - PORT_BASE) / s
    ensures (port - PORT_BASE) / s < n <==> port < PORT_BASE + n * s
  {
    Below(port - PORT_BASE, s, n);
  }

  lemma {:induction false} PortBelow(port: nat, s: nat, n: nat)
    requires port < PORT_BASE && s > 0
    ensures (PORT_BASE - port) / s == 0 <==> PORT_BASE < port + s
    ensures port < PORT_BASE + n * s
  {
    Below(PORT_BASE - port, s, 1);
  }

  /** A port leads to a process that exists exactly if it is less than one range below the base, and below the end. */
  lemma {:induction false} PortInRange(n: nat, port: nat)
    requires 0 < n <= 64511
    ensures 0 <= PortToId(n, port) < n <==> PORT_BASE < port + Slice(n) && port < PORT_BASE + n * Slice(n)
  {
    hide Slice;
    var s := Slice(n);
    if port >= PORT_BASE { PortAbove(port, s, n); } else { PortBelow(port, s, n); }
  }

  /** Two processes, and the two highest ports lead to a third one. */
  lemma NoSuchProcess()
    ensures PortToId(2, 65534) == 2 && PortToId(2, 65535) == 2
  {
  }
}
