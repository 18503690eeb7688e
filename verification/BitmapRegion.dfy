/** The aligned region allocator of bitmap.c. */
module BitmapRegion {
  import opened Words

  /** 1 << order */
  function Pow2(order: nat): (n: nat)
    ensures n > 0
  {
    if order == 0 then 1 else 2 * Pow2(order - 1)
  }

  /** A region of 1 << order bits that starts at pos. */
  datatype Region = Region(pos: nat, order: nat) {
    function End(): nat {
      pos + Pow2(order)
    }

    predicate Aligned() {
      pos % Pow2(order) == 0
    }

    predicate Contains(p: nat) {
      pos <= p < End()
    }
  }

  function Span(r: Region): set<nat> {
    set p: nat | p < r.End() && r.Contains(p)
  }

  /** The set bits of a bitmap. */
  function SetBits(bm: seq<bv64>): set<nat> {
    set p: nat | p < 64 * |bm| && BitAt(bm, p)
  }

  predicate IsFree(used: set<nat>, r: Region) {
    used !! Span(r)
  }

  // ---------- the words and the mask of a region ----------

  function BitsInLong(order: nat): nat {
    if Pow2(order) < 64 then Pow2(order) else 64
  }

  function Mask(pos: nat, order: nat): bv64 {
    Shl(Below(Shl(1, BitsInLong(order))), pos % 64)
  }

  lemma {:induction false} Pow2Split(order: nat)
    requires order >= 6
    ensures Pow2(order) == 64 * Pow2(order - 6)
  {
    if order > 6 { Pow2Split(order - 1); } else { Pow2Small(); }
  }

  lemma {:induction false} Pow2Small()
    ensures Pow2(0) == 1 && Pow2(1) == 2 && Pow2(2) == 4 && Pow2(3) == 8
    ensures Pow2(4) == 16 && Pow2(5) == 32 && Pow2(6) == 64
  {
  }

  lemma MultipleOf64(pos: nat, size: nat, k: nat)
    requires size == 64 * k && k > 0 && pos % size == 0
    ensures pos % 64 == 0
  {
    var j := pos / size;
    assert pos == 64 * (k * j);
  }

  lemma Offset8(pos: nat)
    ensures pos % 64 + 1 <= 64
    ensures pos % 2 == 0 ==> pos % 64 + 2 <= 64
    ensures pos % 4 == 0 ==> pos % 64 + 4 <= 64
    ensures pos % 8 == 0 ==> pos % 64 + 8 <= 64
  {
  }

  lemma Offset16(pos: nat)
    ensures pos % 16 == 0 ==> pos % 64 + 16 <= 64
  {
  }

  lemma Offset32(pos: nat)
    ensures pos % 32 == 0 ==> pos % 64 + 32 <= 64
  {
  }

  lemma {:induction false} SmallOffset(pos: nat, order: nat)
    requires order < 6 && pos % Pow2(order) == 0
    ensures pos % 64 + Pow2(order) <= 64
  {
    hide Pow2;
    Pow2Small();
    if order < 4 { Offset8(pos); } else if order == 4 { Offset16(pos); } else { Offset32(pos); }
    assert order == 0 || order == 1 || order == 2 || order == 3 || order == 4 || order == 5;
  }

  /** An aligned region fits into one word, or is made of whole words. */
  lemma {:induction false} OneWordOrWhole(r: Region)
    requires r.Aligned()
    ensures if r.order < 6 then BitsInLong(r.order) == Pow2(r.order) && r.pos % 64 + Pow2(r.order) <= 64
            else BitsInLong(r.order) == 64 && r.pos % 64 == 0 && Pow2(r.order) % 64 == 0
    ensures BitsToLongs(Pow2(r.order)) == if r.order < 6 then 1 else Pow2(r.order) / 64
    ensures r.order < 6 ==> Pow2(r.order) <= 32
  {
    hide Pow2;
    Pow2Small();
    if r.order < 6 {
      SmallOffset(r.pos, r.order);
    } else {
      Pow2Split(r.order);
      MultipleOf64(r.pos, Pow2(r.order), Pow2(r.order - 6));
    }
  }

  lemma {:induction false} MaskBit(pos: nat, order: nat, i: nat)
    requires i < 64
    ensures Bit(Mask(pos, order), i) <==> pos % 64 <= i < pos % 64 + BitsInLong(order)
  {
    hide Bit, Shl, Below, Pow2;
    BitShl(Below(Shl(1, BitsInLong(order))), pos % 64, i);
    if i >= pos % 64 { BitMask(BitsInLong(order), i - pos % 64); }
  }

  lemma WholeWords(pos: nat, size: nat, p: nat)
    requires pos % 64 == 0 && size % 64 == 0
    ensures pos <= p < pos + size <==> pos / 64 <= p / 64 < pos / 64 + size / 64
  {
    assert pos == 64 * (pos / 64) && size == 64 * (size / 64);
  }

  lemma InOneWord(pos: nat, size: nat, p: nat)
    requires pos % 64 + size <= 64
    ensures pos <= p < pos + size <==> pos / 64 == p / 64 && pos % 64 <= p % 64 < pos % 64 + size
  {
    assert pos == 64 * (pos / 64) + pos % 64 && p == 64 * (p / 64) + p % 64;
  }

  /** The words that __reg_op goes over. */
  predicate WordOfRegion(r: Region, k: int) {
    r.pos / 64 <= k < r.pos / 64 + BitsToLongs(Pow2(r.order))
  }

  /** The bits that __reg_op acts on: in each of its words those of the mask. */
  function Touched(r: Region): set<nat> {
    set p: nat | p < 64 * (r.pos / 64 + BitsToLongs(Pow2(r.order))) &&
                 WordOfRegion(r, p / 64) && r.pos % 64 <= p % 64 < r.pos % 64 + BitsInLong(r.order)
  }

  lemma {:induction false} TouchedBit(r: Region, p: nat)
    ensures p in Touched(r) <==> WordOfRegion(r, p / 64) && Bit(Mask(r.pos, r.order), p % 64)
  {
    hide Bit, Mask, Pow2;
    MaskBit(r.pos, r.order, p % 64);
  }

  /** A region that lies in one word or starts with one. */
  predicate FitsWords(r: Region) {
    if r.order < 6 then r.pos % 64 + Pow2(r.order) <= 64 else r.pos % 64 == 0
  }

  /** The words and the mask make up the region exactly if it fits the words, as every aligned region does. */
  lemma {:induction false} TouchedIffFits(r: Region)
    ensures Touched(r) == Span(r) <==> FitsWords(r)
    ensures r.Aligned() ==> FitsWords(r)
  {
    hide Pow2;
    Sizes(r.order);
    if r.Aligned() { OneWordOrWhole(r); }
    if FitsWords(r) {
      forall p: nat | true ensures p in Touched(r) <==> p in Span(r) {
        assert p in Span(r) <==> r.Contains(p);
        if r.order >= 6 { WholeWords(r.pos, Pow2(r.order), p); } else { InOneWord(r.pos, Pow2(r.order), p); }
      }
    } else {
      assert r.End() - 1 in Span(r);
      LastBehind(r.pos, Pow2(r.order), BitsToLongs(Pow2(r.order)));
      assert r.End() - 1 !in Touched(r);
    }
  }

  lemma {:induction false} Sizes(order: nat)
    ensures if order < 6 then BitsInLong(order) == Pow2(order) && BitsToLongs(Pow2(order)) == 1
            else BitsInLong(order) == 64 && Pow2(order) == 64 * BitsToLongs(Pow2(order))
  {
    OneWordOrWhole(Region(0, order));
  }

  lemma LastBehind(pos: nat, size: nat, n: nat)
    requires 0 < size
    requires if n == 1 && size <= 64 then pos % 64 + size > 64 else size == 64 * n && pos % 64 > 0
    ensures (pos + size - 1) / 64 >= pos / 64 + n
  {
  }

  /** A bit is in an aligned region exactly if its word is one of the region's and the mask selects it. */
  lemma {:induction false} InRegion(r: Region, p: nat)
    requires r.Aligned()
    ensures p in Span(r) <==> WordOfRegion(r, p / 64) && Bit(Mask(r.pos, r.order), p % 64)
  {
    TouchedIffFits(r);
    TouchedBit(r, p);
  }

  /** The source's way to write a mask of n bits without shifting by the word size. */
  lemma DoubleMinusOne(m: bv64)
    ensures m + (m - 1) == Below(Double(m))
  {
  }

  // ---------- __reg_op ----------

  datatype RegOp = RegIsFree | RegAlloc | RegRelease

  /** The mask as __reg_op computes it. */
  method RegMask(pos: nat, order: nat) returns (mask: bv64)
    ensures mask == Mask(pos, order)
  {
    hide Shl, Below, Double;
    var nbitsinlong := BitsInLong(order);
    mask := Shl(1, nbitsinlong - 1);
    DoubleMinusOne(mask);
    ShlStep(1, nbitsinlong);
    mask := mask + (mask - 1);
    mask := Shl(mask, pos - pos / 64 * 64);
  }

  /** No word of the region has one of its bits. */
  ghost predicate NoHits(bm: seq<bv64>, r: Region)
    requires r.pos / 64 + BitsToLongs(Pow2(r.order)) <= |bm|
  {
    forall k {:trigger bm[k]} | r.pos / 64 <= k < r.pos / 64 + BitsToLongs(Pow2(r.order)) ::
      !Hit(bm[k], Mask(r.pos, r.order))
  }

  lemma {:induction false} FreeWords(bm: seq<bv64>, r: Region)
    requires r.pos / 64 + BitsToLongs(Pow2(r.order)) <= |bm|
    ensures SetBits(bm) !! Touched(r) <==> NoHits(bm, r)
  {
    hide Bit, Mask, Hit, Pow2, And;
    var mask, index, n := Mask(r.pos, r.order), r.pos / 64, BitsToLongs(Pow2(r.order));
    if !(SetBits(bm) !! Touched(r)) {
      var p :| p in SetBits(bm) && p in Touched(r);
      TouchedBit(r, p);
      BitAnd(bm[p / 64], mask, p % 64);
      HitMeans(bm[p / 64], mask);
      BitZero(p % 64);
      assert Hit(bm[p / 64], mask);
    }
    if !NoHits(bm, r) {
      var k :| index <= k < index + n && Hit(bm[k], mask);
      HitMeans(bm[k], mask);
      var b := SomeBit(And(bm[k], mask));
      BitAnd(bm[k], mask, b);
      var p := 64 * k + b;
      WordOf(k, b);
      TouchedBit(r, p);
      assert p in SetBits(bm) && p in Touched(r);
    }
  }

  /** What a loop over the words does to the whole bitmap. */
  lemma {:induction false} WordsUsed(was: seq<bv64>, now: seq<bv64>, r: Region, taken: bool)
    requires |was| == |now| && r.pos / 64 + BitsToLongs(Pow2(r.order)) <= |was|
    requires forall k | 0 <= k < |was| ::
               now[k] == if WordOfRegion(r, k)
                         then (if taken then Or(was[k], Mask(r.pos, r.order))
                               else And(was[k], Not(Mask(r.pos, r.order))))
                         else was[k]
    ensures SetBits(now) == if taken then SetBits(was) + Touched(r) else SetBits(was) - Touched(r)
  {
    hide Bit, Mask, Or, And, Not, Pow2;
    var mask := Mask(r.pos, r.order);
    forall p: nat | p < 64 * |was|
      ensures BitAt(now, p) <==> if taken then BitAt(was, p) || p in Touched(r) else BitAt(was, p) && p !in Touched(r)
    {
      TouchedBit(r, p);
      var w := was[p / 64];
      if taken {
        BitOr(w, mask, p % 64);
      } else {
        BitAnd(w, Not(mask), p % 64);
        BitNot(mask, p % 64);
      }
    }
  }

  /** __reg_op at any position */
  method DoRegOp(bitmap: array<bv64>, pos: nat, order: nat, op: RegOp) returns (ret: int)
    requires pos / 64 + BitsToLongs(Pow2(order)) <= bitmap.Length
    modifies bitmap
    ensures op.RegIsFree? ==> bitmap[..] == old(bitmap[..])
    ensures op.RegIsFree? ==> ret == if SetBits(bitmap[..]) !! Touched(Region(pos, order)) then 1 else 0
    ensures op.RegAlloc? ==> SetBits(bitmap[..]) == SetBits(old(bitmap[..])) + Touched(Region(pos, order))
    ensures op.RegRelease? ==> SetBits(bitmap[..]) == SetBits(old(bitmap[..])) - Touched(Region(pos, order))
    ensures !op.RegIsFree? ==> ret == 0
  {
    hide Mask, Or, And, Not, Hit, SetBits, Touched;
    ghost var r, was := Region(pos, order), bitmap[..];
    var index: nat, nlongs: nat := pos / 64, BitsToLongs(Pow2(order));
    var mask := RegMask(pos, order);
    var i: nat := 0;
    ret := 0;
    match op
    case RegIsFree =>
      FreeWords(was, r);
      while i < nlongs
        invariant i <= nlongs
        invariant forall k {:trigger was[k]} | index <= k < index + i :: !Hit(was[k], mask)
      {
        assert was[index + i] == bitmap[index + i];
        if Hit(bitmap[index + i], mask) { return; }
        i := i + 1;
      }
      ret := 1;
    case RegAlloc =>
      while i < nlongs
        invariant i <= nlongs
        invariant forall k | 0 <= k < bitmap.Length ::
                    bitmap[k] == if index <= k < index + i then Or(was[k], mask) else was[k]
      {
        bitmap[index + i] := Or(bitmap[index + i], mask);
        i := i + 1;
      }
      WordsUsed(was, bitmap[..], r, true);
    case RegRelease =>
      while i < nlongs
        invariant i <= nlongs
        invariant forall k | 0 <= k < bitmap.Length ::
                    bitmap[k] == if index <= k < index + i then And(was[k], Not(mask)) else was[k]
      {
        bitmap[index + i] := And(bitmap[index + i], Not(mask));
        i := i + 1;
      }
      WordsUsed(was, bitmap[..], r, false);
  }

  // ---------- the allocator ----------

  /** r is the lowest free aligned region of its order in a bitmap of bits bits. */
  ghost predicate LowestFree(used: set<nat>, bits: nat, r: Region) {
    && r.Aligned() && r.End() <= bits && IsFree(used, r)
    && forall q: nat | q < r.pos && Region(q, r.order).Aligned() :: !IsFree(used, Region(q, r.order))
  }

  ghost predicate NoneFree(used: set<nat>, bits: nat, order: nat) {
    forall q: nat {:trigger Region(q, order)} | Region(q, order).Aligned() && Region(q, order).End() <= bits ::
      !IsFree(used, Region(q, order))
  }

  const ENOMEM := 12
  const EBUSY := 16

  lemma {:induction false} WordsOfRegion(r: Region, n: nat)
    requires r.Aligned() && r.End() <= 64 * n
    ensures r.pos / 64 + BitsToLongs(Pow2(r.order)) <= n
  {
    hide Pow2;
    OneWordOrWhole(r);
  }

  lemma FreeIs(used: set<nat>, r: Region)
    ensures IsFree(used, r) <==> used !! Span(r)
  {
  }

  /** bitmap_find_free_region */
  method FindFreeRegion(bitmap: array<bv64>, bits: nat, order: nat) returns (pos: int)
    requires bits <= 64 * bitmap.Length
    modifies bitmap
    ensures var used, now := SetBits(old(bitmap[..])), SetBits(bitmap[..]);
            if pos >= 0 then LowestFree(used, bits, Region(pos, order)) && now == used + Span(Region(pos, order))
            else pos == -ENOMEM && NoneFree(used, bits, order) && now == used
  {
    hide SetBits, Span, Touched, FitsWords, IsFree, Pow2;
    ghost var used, size := SetBits(bitmap[..]), Pow2(order);
    pos := 0;
    var end := pos + Pow2(order);
    while end <= bits
      invariant 0 <= pos && end == pos + size && pos % size == 0
      invariant bitmap[..] == old(bitmap[..])
      invariant forall q: nat {:trigger Region(q, order)} | q < pos && Region(q, order).Aligned() ::
                  !IsFree(used, Region(q, order))
      decreases bits - pos
    {
      WordsOfRegion(Region(pos, order), bitmap.Length);
      TouchedIffFits(Region(pos, order));
      FreeIs(used, Region(pos, order));
      var free := DoRegOp(bitmap, pos, order, RegIsFree);
      if free != 0 {
        var _ := DoRegOp(bitmap, pos, order, RegAlloc);
        return;
      }
      NextAligned(pos, order);
      pos := end;
      end := pos + Pow2(order);
    }
    pos := -ENOMEM;
  }

  /** No aligned position lies strictly between one and the next. */
  lemma NextAligned(pos: nat, order: nat)
    requires pos % Pow2(order) == 0
    ensures (pos + Pow2(order)) % Pow2(order) == 0
    ensures forall q: nat {:trigger Region(q, order)} | pos < q < pos + Pow2(order) :: !Region(q, order).Aligned()
  {
    hide Pow2;
    var size := Pow2(order);
    AddSize(pos, size);
    forall q: nat | pos < q < pos + size ensures q % size != 0 {
      Remainder(pos, size, q);
    }
  }

  lemma AddSize(pos: nat, size: nat)
    requires size > 0 && pos % size == 0
    ensures (pos + size) % size == 0
  {
    var j := pos / size;
    Distribute(size, j, 1);
    Unique(pos + size, size, j + 1, 0);
  }

  lemma Remainder(pos: nat, size: nat, q: nat)
    requires size > 0 && pos % size == 0 && pos <= q < pos + size
    ensures q % size == q - pos
  {
    Unique(q, size, pos / size, q - pos);
  }

  lemma Distribute(size: nat, j: int, k: int)
    ensures size * (j + k) == size * j + size * k
  {
  }

  lemma AtLeast(size: nat, k: int)
    ensures k >= 1 ==> size * k >= size
  {
  }

  /** Quotient and remainder are unique. */
  lemma Unique(q: nat, size: nat, j: int, m: nat)
    requires size > 0 && q == size * j + m && m < size
    ensures q % size == m
  {
    UniqueParts(size, j, m, q / size, q % size);
  }

  lemma UniqueParts(size: nat, j: int, m: nat, b: int, r: nat)
    requires size * j + m == size * b + r && m < size && r < size
    ensures m == r
  {
    Distribute(size, j, -b);
    Distribute(size, b, -j);
    AtLeast(size, j - b);
    AtLeast(size, b - j);
    if j == b { assert size * j == size * b; }
  }

  /** bitmap_allocate_region */
  method AllocateRegion(bitmap: array<bv64>, pos: nat, order: nat) returns (error: int)
    requires pos / 64 + BitsToLongs(Pow2(order)) <= bitmap.Length
    modifies bitmap
    ensures var used, now, bits := SetBits(old(bitmap[..])), SetBits(bitmap[..]), Touched(Region(pos, order));
            if error == 0 then used !! bits && now == used + bits
            else error == -EBUSY && !(used !! bits) && now == used
  {
    var free := DoRegOp(bitmap, pos, order, RegIsFree);
    if free == 0 { return -EBUSY; }
    var _ := DoRegOp(bitmap, pos, order, RegAlloc);
    error := 0;
  }

  /** bitmap_release_region */
  method ReleaseRegion(bitmap: array<bv64>, pos: nat, order: nat)
    requires pos / 64 + BitsToLongs(Pow2(order)) <= bitmap.Length
    modifies bitmap
    ensures SetBits(bitmap[..]) == SetBits(old(bitmap[..])) - Touched(Region(pos, order))
  {
    var _ := DoRegOp(bitmap, pos, order, RegRelease);
  }

  // ---------- any run of the three operations ----------

  /** A call and what it returned. */
  datatype Event = Find(order: nat, pos: int) | Allocate(r: Region, error: int) | Release(r: Region)

  /** The set bits, and the regions handed out and not yet given back. */
  datatype Pool = Pool(used: set<nat>, live: set<Region>)

  /** What the contracts of the three methods allow; only live regions are released. */
  ghost predicate Allowed(s: Pool, bits: nat, e: Event) {
    match e
    case Find(order, pos) =>
      if pos >= 0 then LowestFree(s.used, bits, Region(pos, order)) else NoneFree(s.used, bits, order)
    case Allocate(r, error) => r.Aligned() && r.End() <= bits && (error == 0 <==> IsFree(s.used, r))
    case Release(r) => r in s.live
  }

  ghost function After(s: Pool, e: Event): Pool {
    match e
    case Find(order, pos) =>
      if pos >= 0 then Pool(s.used + Span(Region(pos, order)), s.live + {Region(pos, order)}) else s
    case Allocate(r, error) => if error == 0 then Pool(s.used + Span(r), s.live + {r}) else s
    case Release(r) => Pool(s.used - Span(r), s.live - {r})
  }

  ghost predicate AllAllowed(s: Pool, bits: nat, run: seq<Event>)
    decreases |run|
  {
    run == [] || (Allowed(s, bits, run[0]) && AllAllowed(After(s, run[0]), bits, run[1..]))
  }

  ghost function AfterAll(s: Pool, run: seq<Event>): Pool
    decreases |run|
  {
    if run == [] then s else AfterAll(After(s, run[0]), run[1..])
  }

  /** Live regions are aligned, in range, disjoint from each other and the initial bits, and account for the rest. */
  ghost predicate Inv(initial: set<nat>, bits: nat, s: Pool) {
    && (forall r | r in s.live :: r.Aligned() && r.End() <= bits && initial !! Span(r))
    && (forall r, t | r in s.live && t in s.live && r != t :: Span(r) !! Span(t))
    && (forall p: nat :: p in s.used <==> p in initial || InLive(s.live, p))
  }

  ghost predicate InLive(live: set<Region>, p: nat) {
    exists r :: r in live && p in Span(r)
  }

  lemma {:induction false} TakenKeeps(initial: set<nat>, bits: nat, s: Pool, r: Region)
    requires Inv(initial, bits, s) && r.Aligned() && r.End() <= bits && IsFree(s.used, r)
    ensures Inv(initial, bits, Pool(s.used + Span(r), s.live + {r}))
  {
    hide Span;
    var after := Pool(s.used + Span(r), s.live + {r});
    forall t | t in s.live ensures Span(t) !! Span(r) {
      forall p | p in Span(t) ensures p !in Span(r) { assert InLive(s.live, p); }
    }
    forall p: nat | true ensures InLive(after.live, p) <==> InLive(s.live, p) || p in Span(r) {
      if p in Span(r) { assert r in after.live; }
    }
    forall p | p in initial ensures p !in Span(r) { assert p in s.used; }
  }

  lemma {:induction false} ReleaseKeeps(initial: set<nat>, bits: nat, s: Pool, r: Region)
    requires Inv(initial, bits, s) && r in s.live
    ensures Inv(initial, bits, Pool(s.used - Span(r), s.live - {r}))
  {
    hide Span;
    var after := Pool(s.used - Span(r), s.live - {r});
    forall p: nat | true ensures InLive(after.live, p) <==> InLive(s.live, p) && p !in Span(r) {
      if InLive(s.live, p) && p !in Span(r) {
        var t :| t in s.live && p in Span(t);
        assert t in after.live;
      }
      if InLive(after.live, p) {
        var t :| t in after.live && p in Span(t);
        assert Span(t) !! Span(r);
      }
    }
  }

  /** Over any run, from any initial bitmap with nothing handed out. */
  lemma {:induction false} Run(initial: set<nat>, bits: nat, s: Pool, run: seq<Event>)
    requires Inv(initial, bits, s) && AllAllowed(s, bits, run)
    ensures Inv(initial, bits, AfterAll(s, run))
    decreases |run|
  {
    hide Inv, IsFree, Span;
    if run != [] {
      match run[0] {
        case Find(order, pos) => if pos >= 0 { TakenKeeps(initial, bits, s, Region(pos, order)); }
        case Allocate(r, error) => if error == 0 { TakenKeeps(initial, bits, s, r); }
        case Release(r) => ReleaseKeeps(initial, bits, s, r);
      }
      Run(initial, bits, After(s, run[0]), run[1..]);
    }
  }

  lemma {:induction false} RegionsStayDisjoint(initial: set<nat>, bits: nat, run: seq<Event>)
    requires AllAllowed(Pool(initial, {}), bits, run)
    ensures Inv(initial, bits, AfterAll(Pool(initial, {}), run))
  {
    hide AllAllowed, AfterAll;
    Run(initial, bits, Pool(initial, {}), run);
  }
}
