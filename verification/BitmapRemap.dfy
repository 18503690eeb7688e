/** Rank, select and the remapping of bitmaps (bitmap.c). */
module BitmapRemap {
  import opened Common
  import opened Words
  import Shift = BitmapShift

  /** The number of set bits below n. */
  function Rank(bm: seq<bv64>, n: nat): nat {
    if n == 0 then 0 else Rank(bm, n - 1) + if BitAt(bm, n - 1) then 1 else 0
  }

  /** The number of set bits of a bitmap. */
  function Weight(bm: seq<bv64>, bits: nat): nat {
    Rank(bm, bits)
  }

  /** The number of bits set in a word below bit n; hweight_long for n == 64. */
  function Count(w: bv64, n: nat): nat {
    if n == 0 then 0 else Count(w, n - 1) + if Bit(w, n - 1) then 1 else 0
  }

  lemma {:induction false} RankOfWord(bm: seq<bv64>, k: nat, n: nat)
    requires k < |bm| && n <= 64
    ensures Rank(bm, 64 * k + n) == Rank(bm, 64 * k) + Count(bm[k], n)
  {
    hide Bit;
    if n > 0 {
      RankOfWord(bm, k, n - 1);
      assert (64 * k + n - 1) / 64 == k && (64 * k + n - 1) % 64 == n - 1;
    }
  }

  lemma {:induction false} CountMasked(w: bv64, size: nat, n: nat)
    requires size <= 64 && n <= 64
    ensures Count(And(w, Below(Shl(1, size))), n) == Count(w, if n < size then n else size)
  {
    hide Bit, And, Below, Shl;
    if n > 0 {
      CountMasked(w, size, n - 1);
      BitAnd(w, Below(Shl(1, size)), n - 1);
      BitMask(size, n - 1);
    }
  }

  /** __bitmap_weight, word by word */
  method BitmapWeight(bitmap: array<bv64>, bits: nat) returns (w: nat)
    requires BitsToLongs(bits) <= bitmap.Length
    ensures w == Weight(bitmap[..], bits)
  {
    hide Count, And, Below, Shl, BitAt;
    var lim := bits / 64;
    w := 0;
    var k: nat := 0;
    while k < lim
      invariant k <= lim && w == Rank(bitmap[..], 64 * k)
    {
      RankOfWord(bitmap[..], k, 64);
      w := w + Count(bitmap[k], 64);
      k := k + 1;
    }
    if bits % 64 > 0 {
      RankOfWord(bitmap[..], k, bits % 64);
      CountMasked(bitmap[k], bits % 64, 64);
      w := w + Count(And(bitmap[k], Below(Shl(1, bits % 64))), 64);
    }
  }

  lemma {:induction false} RankMonotone(bm: seq<bv64>, a: nat, b: nat)
    requires a <= b
    ensures Rank(bm, a) <= Rank(bm, b) <= Rank(bm, a) + b - a
  {
    hide BitAt;
    if a < b { RankMonotone(bm, a, b - 1); }
  }

  /** A stretch of clear bits does not count. */
  lemma {:induction false} RankGap(bm: seq<bv64>, a: nat, b: nat)
    requires a <= b && forall p: nat {:trigger BitAt(bm, p)} | a <= p < b :: !BitAt(bm, p)
    ensures Rank(bm, b) == Rank(bm, a)
  {
    hide BitAt;
    if a < b { RankGap(bm, a, b - 1); }
  }

  /** Set bits with the same rank are the same bit. */
  lemma {:induction false} RankInjective(bm: seq<bv64>, p: nat, q: nat)
    requires BitAt(bm, p) && BitAt(bm, q) && Rank(bm, p) == Rank(bm, q)
    ensures p == q
  {
    hide BitAt;
    if p < q { RankMonotone(bm, p + 1, q); }
    if q < p { RankMonotone(bm, q + 1, p); }
  }

  /** The ordinal of the set bit at pos, -1 for a position that is not set or not valid. */
  function PosToOrd(bm: seq<bv64>, pos: int, bits: nat): int {
    if pos < 0 || pos >= bits || !BitAt(bm, pos) then -1 else Rank(bm, pos)
  }

  /** pos is where the set bit with ordinal ord is; 0 stands for an ordinal that no set bit has. */
  ghost predicate IsPosOf(bm: seq<bv64>, ord: int, bits: nat, pos: nat) {
    if 0 <= ord < Weight(bm, bits) then pos < bits && BitAt(bm, pos) && Rank(bm, pos) == ord else pos == 0
  }

  function OrdToPos(bm: seq<bv64>, ord: int, bits: nat): (pos: nat)
    ensures IsPosOf(bm, ord, bits, pos)
  {
    if 0 <= ord < Weight(bm, bits) then Select(bm, ord, bits) else 0
  }

  function Select(bm: seq<bv64>, ord: nat, bits: nat): (pos: nat)
    requires ord < Weight(bm, bits)
    ensures pos < bits && BitAt(bm, pos) && Rank(bm, pos) == ord
  {
    if BitAt(bm, bits - 1) && Rank(bm, bits - 1) == ord then bits - 1 else Select(bm, ord, bits - 1)
  }

  /** bitmap_pos_to_ord; on return its BUG_ON would find i == pos. */
  method PosToOrdLoop(buf: array<bv64>, pos: int, bits: nat) returns (ord: int)
    ensures ord == PosToOrd(buf[..], pos, bits)
  {
    hide BitAt;
    if pos < 0 || pos >= bits || !BitAt(buf[..], pos) { return -1; }
    var i: nat := FindNext(buf[..], bits, 0);
    RankGap(buf[..], 0, i);
    ord := 0;
    while i < pos
      invariant i <= pos && BitAt(buf[..], i)
      invariant ord == Rank(buf[..], i)
      decreases pos - i
    {
      var next := FindNext(buf[..], bits, i + 1);
      RankGap(buf[..], i + 1, next);
      i := next;
      ord := ord + 1;
    }
    assert i == pos;
  }

  /** bitmap_ord_to_pos */
  method OrdToPosLoop(buf: array<bv64>, ord: int, bits: nat) returns (pos: nat)
    ensures pos == OrdToPos(buf[..], ord, bits)
  {
    hide BitAt;
    pos := 0;
    RankMonotone(buf[..], 0, bits);
    if 0 <= ord < bits {
      var left := ord;
      var i: nat := FindNext(buf[..], bits, 0);
      RankGap(buf[..], 0, i);
      while i < bits && left > 0
        invariant i <= bits && 0 <= left && (i < bits ==> BitAt(buf[..], i))
        invariant Rank(buf[..], i) + left == ord
        decreases bits - i
      {
        var next := FindNext(buf[..], bits, i + 1);
        RankGap(buf[..], i + 1, next);
        i := next;
        left := left - 1;
      }
      if i < bits && left == 0 {
        pos := i;
        RankMonotone(buf[..], i + 1, bits);
        RankInjective(buf[..], i, OrdToPos(buf[..], ord, bits));
      }
    }
  }

  /** Position to ordinal and ordinal to position undo each other on set bits. */
  lemma {:induction false} OrdersInverse(bm: seq<bv64>, bits: nat, pos: nat, ord: nat)
    ensures pos < bits && BitAt(bm, pos) ==>
              0 <= PosToOrd(bm, pos, bits) < Weight(bm, bits) && OrdToPos(bm, PosToOrd(bm, pos, bits), bits) == pos
    ensures ord < Weight(bm, bits) ==> PosToOrd(bm, OrdToPos(bm, ord, bits), bits) == ord
  {
    hide BitAt, OrdToPos;
    if pos < bits && BitAt(bm, pos) {
      RankMonotone(bm, pos + 1, bits);
      RankInjective(bm, pos, OrdToPos(bm, Rank(bm, pos), bits));
    }
  }

  // ---------- remapping ----------

  /** The map that bitmap_bitremap computes: the n-th bit of from goes to the n-th one of to, modulo its weight. */
  function BitRemap(oldbit: nat, from: seq<bv64>, to: seq<bv64>, bits: nat): (newbit: nat)
    ensures oldbit < bits ==> newbit < bits
  {
    var w, n := Weight(to, bits), PosToOrd(from, oldbit, bits);
    if n < 0 || w == 0 then oldbit
    else
      assert IsPosOf(to, n % w, bits, OrdToPos(to, n % w, bits));
      OrdToPos(to, n % w, bits)
  }

  /** The rank counts the set bits below. */
  lemma {:induction false} RankCounts(bm: seq<bv64>, n: nat)
    ensures Rank(bm, n) == |SetBits(bm, n)|
  {
    hide BitAt;
    if n > 0 {
      RankCounts(bm, n - 1);
      assert SetBits(bm, n) == if BitAt(bm, n - 1) then SetBits(bm, n - 1) + {n - 1} else SetBits(bm, n - 1);
    } else {
      assert SetBits(bm, 0) == {};
    }
  }

  /**
   * A set bit of from goes to the set bit of to that has as many set bits below it, counted modulo those of to; every
   * other bit stays where it is, and so do all if to is empty.
   */
  lemma {:induction false} BitRemapIs(oldbit: nat, from: seq<bv64>, to: seq<bv64>, bits: nat)
    ensures var newbit, w := BitRemap(oldbit, from, to, bits), |SetBits(to, bits)|;
            if oldbit < bits && BitAt(from, oldbit) && w > 0 then
              && newbit < bits && BitAt(to, newbit)
              && |SetBits(to, newbit)| == |SetBits(from, oldbit)| % w
            else newbit == oldbit
  {
    hide BitAt, Rank, OrdToPos;
    RankCounts(to, bits);
    RankCounts(from, oldbit);
    var n, w := PosToOrd(from, oldbit, bits), Weight(to, bits);
    if n >= 0 && w > 0 {
      var newbit := BitRemap(oldbit, from, to, bits);
      assert IsPosOf(to, n % w, bits, newbit);
      RankCounts(to, newbit);
    }
  }

  /** Some bit of src is mapped to q. */
  ghost predicate Reached(src: seq<bv64>, from: seq<bv64>, to: seq<bv64>, bits: nat, limit: nat, q: nat) {
    exists p: nat {:trigger BitRemap(p, from, to, bits)} ::
      p < limit && BitAt(src, p) && BitRemap(p, from, to, bits) == q
  }

  /** dst is the image of src under BitRemap. */
  ghost predicate IsImage(dst: seq<bv64>, src: seq<bv64>, from: seq<bv64>, to: seq<bv64>, bits: nat) {
    BitsToLongs(bits) <= |dst| &&
    forall q: nat {:trigger BitAt(dst, q)} | q < 64 * BitsToLongs(bits) ::
      BitAt(dst, q) <==> Reached(src, from, to, bits, bits, q)
  }

  /** dst has the bits of src below bits. */
  ghost predicate IsCopy(dst: seq<bv64>, src: seq<bv64>, bits: nat) {
    BitsToLongs(bits) <= |dst| &&
    forall q: nat {:trigger BitAt(dst, q)} | q < 64 * BitsToLongs(bits) ::
      BitAt(dst, q) <==> q < bits && BitAt(src, q)
  }

  /** bitmap_remap; with dst and src the same array it does nothing, and with dst one of the others it copies src. */
  method Remap(dst: array<bv64>, src: array<bv64>, from: array<bv64>, to: array<bv64>, bits: nat)
    requires BitsToLongs(bits) <= dst.Length && BitsToLongs(bits) <= to.Length
    modifies dst
    ensures if dst == src then dst[..] == old(dst[..])
            else if dst == from || dst == to then IsCopy(dst[..], src[..], bits)
            else IsImage(dst[..], src[..], from[..], to[..], bits)
  {
    if dst == src { return; }
    hide BitAt, Weight, PosToOrd, OrdToPos, BitRemap, Reached;
    Shift.Clear(dst, 0, BitsToLongs(bits));
    Cleared(dst[..], bits);
    var w := BitmapWeight(to, bits);
    if dst == to { NoneSet(to[..], bits); }
    var oldbit: nat := FindNext(src[..], bits, 0);
    ghost var s, f, t := src[..], from[..], to[..];
    forall q: nat | true ensures !Reached(s, f, t, bits, oldbit, q) { NoneBefore(s, f, t, bits, oldbit, q); }
    while oldbit < bits
      invariant oldbit <= bits && (oldbit < bits ==> BitAt(s, oldbit)) && s == src[..]
      invariant dst != from ==> f == from[..]
      invariant if dst == to then w == 0 else t == to[..] && w == Weight(t, bits)
      invariant forall q: nat {:trigger BitAt(dst[..], q)} | q < 64 * BitsToLongs(bits) ::
                  BitAt(dst[..], q) <==> if dst == from || dst == to then q < oldbit && BitAt(s, q)
                                         else Reached(s, f, t, bits, oldbit, q)
      decreases bits - oldbit
    {
      var n := PosToOrdLoop(from, oldbit, bits);
      if dst == from { NoOrd(dst[..], oldbit, bits); }
      ghost var newbit := BitRemap(oldbit, f, t, bits);
      RemapCases(oldbit, f, t, bits);
      if n < 0 || w == 0 {
        SetBit(dst, oldbit);
      } else {
        var pos := OrdToPosLoop(to, n % w, bits);
        SetBit(dst, pos);
      }
      var next := FindNext(src[..], bits, oldbit + 1);
      forall q: nat | true
        ensures Reached(s, f, t, bits, next, q) <==> q == newbit || Reached(s, f, t, bits, oldbit, q)
      {
        OneMore(s, f, t, bits, oldbit, next, q);
      }
      oldbit := next;
    }
  }

  lemma NoOrd(bm: seq<bv64>, pos: nat, bits: nat)
    requires !BitAt(bm, pos)
    ensures PosToOrd(bm, pos, bits) == -1
  {
    hide BitAt;
  }

  lemma {:induction false} NoneSet(bm: seq<bv64>, bits: nat)
    requires forall p: nat {:trigger BitAt(bm, p)} | p < bits :: !BitAt(bm, p)
    ensures Weight(bm, bits) == 0
  {
    hide BitAt;
    RankGap(bm, 0, bits);
  }

  /** A copy of src is the image that was asked for exactly if every bit of src is the image of one. */
  lemma {:induction false} CopyIsImageIff(dst: seq<bv64>, src: seq<bv64>, from: seq<bv64>, to: seq<bv64>, bits: nat)
    requires IsCopy(dst, src, bits)
    ensures IsImage(dst, src, from, to, bits) <==>
            forall p: nat {:trigger BitAt(src, p)} | p < bits && BitAt(src, p) :: Reached(src, from, to, bits, bits, p)
  {
    hide BitAt, BitRemap, Reached;
    var image := ImageOf(SetBits(src, bits), from, to, bits);
    forall q: nat | true ensures q in image <==> Reached(src, from, to, bits, bits, q) {
      ReachedIs(src, from, to, bits, q);
    }
    if forall p: nat {:trigger BitAt(src, p)} | p < bits && BitAt(src, p) :: Reached(src, from, to, bits, bits, p) {
      ImageSmaller(SetBits(src, bits), from, to, bits);
      SameSize(SetBits(src, bits), image);
      forall q: nat | true ensures q in image <==> q < bits && BitAt(src, q) {
        assert q in SetBits(src, bits) <==> q < bits && BitAt(src, q);
      }
    }
    if IsImage(dst, src, from, to, bits) {
      forall p: nat | p < bits && BitAt(src, p) ensures Reached(src, from, to, bits, bits, p) {
        assert BitAt(dst, p);
      }
    }
  }

  function SetBits(bm: seq<bv64>, bits: nat): set<nat> {
    set p: nat | p < bits && BitAt(bm, p)
  }

  function ImageOf(bits: set<nat>, from: seq<bv64>, to: seq<bv64>, size: nat): set<nat> {
    set p | p in bits :: BitRemap(p, from, to, size)
  }

  lemma ReachedIs(src: seq<bv64>, from: seq<bv64>, to: seq<bv64>, bits: nat, q: nat)
    ensures q in ImageOf(SetBits(src, bits), from, to, bits) <==> Reached(src, from, to, bits, bits, q)
  {
    hide BitAt, BitRemap;
    if Reached(src, from, to, bits, bits, q) {
      var p: nat :| p < bits && BitAt(src, p) && BitRemap(p, from, to, bits) == q;
      assert p in SetBits(src, bits);
    }
  }

  lemma {:induction false} ImageSmaller(s: set<nat>, from: seq<bv64>, to: seq<bv64>, bits: nat)
    ensures |ImageOf(s, from, to, bits)| <= |s|
  {
    hide BitRemap;
    if s != {} {
      var p :| p in s;
      ImageSmaller(s - {p}, from, to, bits);
      assert ImageOf(s, from, to, bits) == ImageOf(s - {p}, from, to, bits) + {BitRemap(p, from, to, bits)};
    }
  }

  lemma {:induction false} SameSize(a: set<nat>, b: set<nat>)
    requires a <= b && |b| <= |a|
    ensures a == b
  {
    if x :| x in b && x !in a { SubsetSize(a, b - {x}); }
  }

  /** bitmap_bitremap */
  method BitRemapLoop(oldbit: nat, from: array<bv64>, to: array<bv64>, bits: nat) returns (newbit: nat)
    requires BitsToLongs(bits) <= to.Length
    ensures newbit == BitRemap(oldbit, from[..], to[..], bits)
  {
    var w := BitmapWeight(to, bits);
    var n := PosToOrdLoop(from, oldbit, bits);
    if n < 0 || w == 0 {
      newbit := oldbit;
    } else {
      newbit := OrdToPosLoop(to, n % w, bits);
    }
  }

  lemma RemapCases(oldbit: nat, from: seq<bv64>, to: seq<bv64>, bits: nat)
    ensures var w, n := Weight(to, bits), PosToOrd(from, oldbit, bits);
            BitRemap(oldbit, from, to, bits) == if n < 0 || w == 0 then oldbit else OrdToPos(to, n % w, bits)
  {
  }

  lemma {:induction false} Cleared(bm: seq<bv64>, bits: nat)
    requires BitsToLongs(bits) <= |bm| && forall k | 0 <= k < BitsToLongs(bits) :: bm[k] == 0
    ensures forall p: nat {:trigger BitAt(bm, p)} | p < 64 * BitsToLongs(bits) :: !BitAt(bm, p)
  {
    hide Bit;
    forall p: nat | p < 64 * BitsToLongs(bits) ensures !BitAt(bm, p) { BitZero(p % 64); }
  }

  lemma NoneBefore(src: seq<bv64>, from: seq<bv64>, to: seq<bv64>, bits: nat, limit: nat, q: nat)
    requires forall p: nat {:trigger BitAt(src, p)} | p < limit :: !BitAt(src, p)
    ensures !Reached(src, from, to, bits, limit, q)
  {
    hide BitAt, BitRemap;
  }

  lemma {:induction false} OneMore(src: seq<bv64>, from: seq<bv64>, to: seq<bv64>, bits: nat, p: nat, next: nat, q: nat)
    requires p < next && BitAt(src, p)
    requires forall k: nat {:trigger BitAt(src, k)} | p < k < next :: !BitAt(src, k)
    ensures Reached(src, from, to, bits, next, q) <==>
            q == BitRemap(p, from, to, bits) || Reached(src, from, to, bits, p, q)
  {
    hide BitAt, BitRemap;
    if Reached(src, from, to, bits, next, q) {
      var k: nat :| k < next && BitAt(src, k) && BitRemap(k, from, to, bits) == q;
    }
  }

  /** Between sets of the same size the map goes there and back. */
  lemma {:induction false} BitThereAndBack(p: nat, from: seq<bv64>, to: seq<bv64>, bits: nat)
    requires Weight(from, bits) == Weight(to, bits) && p < bits && BitAt(from, p)
    ensures var q := BitRemap(p, from, to, bits); q < bits && BitAt(to, q) && BitRemap(q, to, from, bits) == p
  {
    hide BitAt, Rank, OrdToPos;
    var n, w := PosToOrd(from, p, bits), Weight(to, bits);
    OrdersInverse(from, bits, p, 0);
    var q := OrdToPos(to, n, bits);
    assert IsPosOf(to, n, bits, q);
    OrdersInverse(to, bits, q, n);
    SmallMod(n, w);
  }

  lemma SmallMod(n: int, w: nat)
    requires 0 <= n < w
    ensures n % w == n
  {
  }

  /** Remapping a subset of the old set there and back is the identity. */
  lemma {:induction false} ThereAndBack(src: seq<bv64>, mid: seq<bv64>, back: seq<bv64>, from: seq<bv64>,
                                        to: seq<bv64>, bits: nat, q: nat)
    requires Weight(from, bits) == Weight(to, bits)
    requires forall p: nat {:trigger BitAt(src, p)} | p < bits && BitAt(src, p) :: BitAt(from, p)
    requires IsImage(mid, src, from, to, bits) && IsImage(back, mid, to, from, bits)
    requires q < bits
    ensures BitAt(back, q) <==> BitAt(src, q)
  {
    hide BitAt, Weight, BitRemap;
    if BitAt(src, q) {
      BitThereAndBack(q, from, to, bits);
      var m := BitRemap(q, from, to, bits);
      assert BitAt(mid, m);
      assert Reached(mid, to, from, bits, bits, q);
    }
    if BitAt(back, q) {
      assert Reached(mid, to, from, bits, bits, q);
      var m: nat :| m < bits && BitAt(mid, m) && BitRemap(m, to, from, bits) == q;
      assert Reached(src, from, to, bits, bits, m);
      var p: nat :| p < bits && BitAt(src, p) && BitRemap(p, from, to, bits) == m;
      BitThereAndBack(p, from, to, bits);
    }
  }
}
