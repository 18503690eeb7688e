/** unsigned long words of 64 bits, C's shifts on them, and bitmaps as sequences of words. */
module Words {

  const BITS_PER_LONG: nat := 64

  function Double(w: bv64): bv64 {
    w << 1
  }

  function Half(w: bv64): bv64 {
    w >> 1
  }

  function And(a: bv64, b: bv64): bv64 {
    a & b
  }

  function Or(a: bv64, b: bv64): bv64 {
    a | b
  }

  function Xor(a: bv64, b: bv64): bv64 {
    a ^ b
  }

  function Not(a: bv64): bv64 {
    !a
  }

  /** m - 1: for a mask 1 << n, the n low bits. */
  function Below(m: bv64): bv64 {
    m - 1
  }

  /** w << n, as n shifts by one. */
  function Shl(w: bv64, n: nat): bv64 {
    if n == 0 then w else Double(Shl(w, n - 1))
  }

  /** w >> n */
  function Shr(w: bv64, n: nat): bv64 {
    if n == 0 then w else Half(Shr(w, n - 1))
  }

  /** A mask m selects something of w. */
  predicate Hit(w: bv64, m: bv64) {
    w & m != 0
  }

  /** Bit i of word w is set. */
  predicate Bit(w: bv64, i: nat) {
    Hit(w, Shl(1, i))
  }

  function BitsToLongs(bits: nat): nat {
    (bits + 63) / 64
  }

  /** Bit p of a bitmap. */
  predicate BitAt(bm: seq<bv64>, p: nat) {
    p / 64 < |bm| && Bit(bm[p / 64], p % 64)
  }

  lemma WordOf(k: nat, b: nat)
    requires b < 64
    ensures (64 * k + b) / 64 == k && (64 * k + b) % 64 == b
  {
  }

  // ---------- single-bit words ----------

  predicate Single(m: bv64) {
    m != 0 && m & (m - 1) == 0
  }

  predicate Top(m: bv64) {
    m & 0x8000_0000_0000_0000 != 0
  }

  /** One step of the repeated shift, for proofs that keep Shl folded. */
  lemma {:induction false} ShlStep(w: bv64, n: nat)
    requires n > 0
    ensures Shl(w, n) == Double(Shl(w, n - 1))
  {
  }

  lemma {:induction false} ShlNone(w: bv64)
    ensures Shl(w, 0) == w
  {
  }

  lemma {:induction false} ShlZero(n: nat)
    ensures Shl(0, n) == 0
  {
    if n > 0 { ShlZero(n - 1); }
  }

  lemma {:induction false} ShlAdd(w: bv64, a: nat, b: nat)
    ensures Shl(Shl(w, a), b) == Shl(w, a + b)
  {
    if b > 0 {
      ShlAdd(w, a, b - 1);
      hide Shl, Double, Half;
      ShlStep(Shl(w, a), b);
      ShlStep(w, a + b);
    } else {
      ShlNone(Shl(w, a));
    }
  }

  lemma SevenSteps(w: bv64)
    ensures Double(Double(Double(Double(Double(Double(Double(w))))))) == w << 7
  {
  }

  lemma {:induction false} ShlSeven(w: bv64)
    ensures Shl(w, 7) == w << 7
  {
    hide Shl, Double, Half;
    ShlNone(w);
    ShlStep(w, 1);
    ShlStep(w, 2);
    ShlStep(w, 3);
    ShlStep(w, 4);
    ShlStep(w, 5);
    ShlStep(w, 6);
    ShlStep(w, 7);
    SevenSteps(w);
  }

  lemma {:induction false} TopBit()
    ensures Shl(1, 63) == 0x8000_0000_0000_0000
  {
    hide Shl, Double, Half;
    ShlSeven(1);
    ShlAdd(1, 7, 7);
    ShlSeven(0x80);
    ShlAdd(1, 14, 7);
    ShlSeven(0x4000);
    ShlAdd(1, 21, 7);
    ShlSeven(0x20_0000);
    ShlAdd(1, 28, 7);
    ShlSeven(0x1000_0000);
    ShlAdd(1, 35, 7);
    ShlSeven(0x8_0000_0000);
    ShlAdd(1, 42, 7);
    ShlSeven(0x400_0000_0000);
    ShlAdd(1, 49, 7);
    ShlSeven(0x2_0000_0000_0000);
    ShlAdd(1, 56, 7);
    ShlSeven(0x100_0000_0000_0000);
  }

  /** The masks 1 << i: single bits below 64, and nothing from there on. */
  lemma {:induction false} OneBit(i: nat)
    ensures i < 64 ==> Single(Shl(1, i))
    ensures i < 63 ==> !Top(Shl(1, i))
    ensures i >= 64 ==> Shl(1, i) == 0
  {
    hide Shl, Double, Half, Top;
    TopBit();
    if i >= 64 {
      PastTop();
      ShlAdd(1, 64, i - 64);
      ShlZero(i - 64);
    } else {
      ShlAdd(1, i, 63 - i);
      ShlZero(63 - i);
      StaysSingle(i);
      if i < 63 {
        ShlStep(1, i + 1);
        ShlAdd(1, i + 1, 62 - i);
        ShlZero(62 - i);
        NotTop(Shl(1, i));
      }
    }
  }

  lemma {:induction false} PastTop()
    ensures Shl(1, 64) == 0
  {
    hide Shl;
    TopBit();
    ShlStep(1, 64);
  }

  lemma {:induction false} StaysSingle(i: nat)
    ensures Shl(1, i) & (Shl(1, i) - 1) == 0
  {
    hide Shl, Double, Half;
    if i > 0 {
      StaysSingle(i - 1);
      ShlStep(1, i);
      DoubledSingle(Shl(1, i - 1));
    } else {
      ShlNone(1);
    }
  }

  lemma DoubledSingle(m: bv64)
    requires m & (m - 1) == 0
    ensures Double(m) & (Double(m) - 1) == 0
  {
  }

  lemma NotTop(m: bv64)
    requires Single(m) && Double(m) != 0
    ensures !Top(m)
  {
  }

  // ---------- bits of the word operations ----------

  lemma {:induction false} BitZero(i: nat)
    ensures !Bit(0, i)
  {
    hide Shl, Double, Half, And, Or, Xor, Not;
    assert 0 & Shl(1, i) == 0;
  }

  lemma {:induction false} BitOr(a: bv64, b: bv64, i: nat)
    ensures Bit(Or(a, b), i) <==> Bit(a, i) || Bit(b, i)
  {
    hide Shl, Double, Half, Hit, And, Or, Xor, Not;
    OrMask(a, b, Shl(1, i));
  }

  lemma {:induction false} OrMask(a: bv64, b: bv64, m: bv64)
    ensures Hit(Or(a, b), m) <==> Hit(a, m) || Hit(b, m)
  {
    OrDistributes(a, b, m);
    hide Hit, Or, And;
    HitMeans(Or(a, b), m);
    HitMeans(a, m);
    HitMeans(b, m);
    OrNonzero(And(a, m), And(b, m));
  }

  lemma HitMeans(a: bv64, m: bv64)
    ensures Hit(a, m) <==> And(a, m) != 0
  {
  }

  lemma OrDistributes(a: bv64, b: bv64, m: bv64)
    ensures And(Or(a, b), m) == Or(And(a, m), And(b, m))
  {
    assert (a | b) & m == (a & m) | (b & m);
  }

  lemma OrNonzero(a: bv64, b: bv64)
    ensures Or(a, b) != 0 <==> a != 0 || b != 0
  {
  }

  lemma {:induction false} BitAnd(a: bv64, b: bv64, i: nat)
    ensures Bit(And(a, b), i) <==> Bit(a, i) && Bit(b, i)
  {
    hide Shl, Double, Half, Hit, Single, Top, And, Or, Xor, Not;
    OneBit(i);
    if i < 64 {
      AndSingle(a, b, Shl(1, i));
    } else {
      NoHit(a);
      NoHit(And(a, b));
    }
  }

  lemma NoHit(a: bv64)
    ensures !Hit(a, 0)
  {
  }

  lemma HitWhole(a: bv64, m: bv64)
    requires Single(m)
    ensures a & m == if Hit(a, m) then m else 0
  {
  }

  lemma AndSingle(a: bv64, b: bv64, m: bv64)
    requires Single(m)
    ensures Hit(And(a, b), m) <==> Hit(a, m) && Hit(b, m)
  {
    assert (a & b) & m == (a & m) & (b & m);
    HitWhole(a, m);
    HitWhole(b, m);
  }

  lemma {:induction false} BitNot(a: bv64, i: nat)
    requires i < 64
    ensures Bit(Not(a), i) <==> !Bit(a, i)
  {
    hide Shl, Double, Half, Hit, Single, Top, And, Or, Xor, Not;
    OneBit(i);
    NotSingle(a, Shl(1, i));
  }

  lemma NotSingle(a: bv64, m: bv64)
    requires Single(m)
    ensures Hit(Not(a), m) <==> !Hit(a, m)
  {
    assert !a & m == m ^ (a & m);
    HitWhole(a, m);
  }

  lemma {:induction false} BitShrOne(w: bv64, i: nat)
    ensures Bit(Half(w), i) == Bit(w, i + 1)
  {
    hide Shl, Double, Half, Hit, And, Or, Xor, Not;
    ShlStep(1, i + 1);
    ShrOneMask(w, Shl(1, i));
  }

  lemma ShrOneMask(w: bv64, m: bv64)
    ensures Hit(Half(w), m) <==> Hit(w, Double(m))
  {
  }

  lemma {:induction false} BitShlOne(w: bv64, i: nat)
    requires i < 64
    ensures Bit(Double(w), i) <==> 0 < i && Bit(w, i - 1)
  {
    hide Shl, Double, Half, Hit, Single, Top, And, Or, Xor, Not;
    if i == 0 {
      ShlNone(1);
      ShlLow(w);
    } else {
      OneBit(i - 1);
      ShlStep(1, i);
      ShlOneMask(w, Shl(1, i - 1));
    }
  }

  lemma ShlLow(w: bv64)
    ensures !Hit(Double(w), 1)
  {
  }

  lemma ShlOneMask(w: bv64, m: bv64)
    requires !Top(m)
    ensures Hit(Double(w), Double(m)) <==> Hit(w, m)
  {
  }

  lemma {:induction false} BitShr(w: bv64, n: nat, i: nat)
    ensures Bit(Shr(w, n), i) == Bit(w, i + n)
  {
    hide Bit, Double, Half, And, Or, Xor, Not;
    if n > 0 {
      BitShrOne(Shr(w, n - 1), i);
      BitShr(w, n - 1, i + 1);
    }
  }

  lemma {:induction false} BitShl(w: bv64, n: nat, i: nat)
    requires i < 64
    ensures Bit(Shl(w, n), i) <==> n <= i && Bit(w, i - n)
  {
    hide Bit, Double, Half, And, Or, Xor, Not;
    if n > 0 {
      BitShlOne(Shl(w, n - 1), i);
      if i > 0 { BitShl(w, n - 1, i - 1); }
    }
  }

  /** The mask (1UL << n) - 1. */
  lemma {:induction false} BitMask(n: nat, i: nat)
    requires n <= 64 && i < 64
    ensures Bit(Below(Shl(1, n)), i) <==> i < n
  {
    hide Bit, Shl, Double, Half, Below, And, Or, Xor, Not;
    if n > 0 {
      ShlStep(1, n);
      DoubledMask(Shl(1, n - 1));
      var low := Below(Shl(1, n - 1));
      BitOr(Double(low), 1, i);
      BitShlOne(low, i);
      if i > 0 {
        BitMask(n - 1, i - 1);
        EvenMask(i);
      } else {
        BitOne();
      }
    } else {
      NoMask();
      BitZero(i);
    }
  }

  lemma {:induction false} NoMask()
    ensures Below(Shl(1, 0)) == 0
  {
  }

  lemma {:induction false} BitOne()
    ensures Bit(1, 0)
  {
  }

  lemma DoubledMask(x: bv64)
    ensures Below(Double(x)) == Or(Double(Below(x)), 1)
  {
  }

  lemma OddMask(x: bv64)
    ensures !Hit(1, Double(x))
  {
  }

  lemma {:induction false} EvenMask(i: nat)
    requires 0 < i
    ensures !Bit(1, i)
  {
    hide Shl, Double, Half, Hit, And, Or, Xor, Not;
    ShlStep(1, i);
    OddMask(Shl(1, i - 1));
  }

  predicate Agree(a: bv64, b: bv64) {
    forall i | 0 <= i < 64 :: Bit(a, i) == Bit(b, i)
  }

  /** Words with the same bits are equal. */
  lemma {:induction false} SameBits(a: bv64, b: bv64)
    requires Agree(a, b)
    ensures a == b
  {
    hide Bit, Double, Half, And, Or, Xor, Not;
    if a != b {
      XorNonzero(a, b);
      var i := SomeBit(Xor(a, b));
      XorBit(a, b, i);
    }
  }

  lemma XorNonzero(a: bv64, b: bv64)
    requires a != b
    ensures Xor(a, b) != 0
  {
  }

  lemma {:induction false} SomeBit(w: bv64) returns (i: nat)
    requires w != 0
    ensures i < 64 && Bit(w, i)
    decreases w
  {
    if Hit(w, 1) {
      i := 0;
      ShlNone(1);
    } else {
      Halved(w);
      i := SomeBit(Half(w));
      BitShrOne(w, i);
      i := i + 1;
      InRange(w, i);
    }
  }

  lemma {:induction false} InRange(w: bv64, i: nat)
    requires Bit(w, i)
    ensures i < 64
  {
    hide Shl, Double, Half, Hit, Single, Top, And, Or, Xor, Not;
    OneBit(i);
    if i >= 64 { NoHit(w); }
  }

  lemma Halved(w: bv64)
    requires w != 0 && !Hit(w, 1)
    ensures Half(w) != 0 && Half(w) < w
  {
  }

  lemma {:induction false} XorBit(a: bv64, b: bv64, i: nat)
    requires i < 64
    ensures Bit(Xor(a, b), i) <==> Bit(a, i) != Bit(b, i)
  {
    hide Shl, Double, Half, Hit, Single, Top, And, Or, Xor, Not;
    OneBit(i);
    XorSingle(a, b, Shl(1, i));
  }

  lemma XorSingle(a: bv64, b: bv64, m: bv64)
    requires Single(m)
    ensures Hit(Xor(a, b), m) <==> Hit(a, m) != Hit(b, m)
  {
    assert (a ^ b) & m == (a & m) ^ (b & m);
    HitWhole(a, m);
    HitWhole(b, m);
  }

  /** The mask 1 << a is the single bit a. */
  lemma {:induction false} BitOfMask(a: nat, i: nat)
    requires a < 64 && i < 64
    ensures Bit(Shl(1, a), i) <==> i == a
  {
    hide Bit, Shl;
    BitShl(1, a, i);
    if a < i { EvenMask(i - a); }
    BitOne();
  }

  // ---------- bit operations on bitmaps ----------

  /** find_next_bit: the first set bit at from or above, size if there is none. */
  function FindNext(bm: seq<bv64>, size: nat, from: nat): (r: nat)
    ensures r <= size && (r < size ==> from <= r && BitAt(bm, r))
    ensures forall p {:trigger BitAt(bm, p)} | from <= p < r :: !BitAt(bm, p)
    decreases size - from
  {
    if from >= size then size
    else if BitAt(bm, from) then from
    else FindNext(bm, size, from + 1)
  }

  /** set_bit */
  method SetBit(bm: array<bv64>, a: nat)
    requires a / 64 < bm.Length
    modifies bm
    ensures forall p: nat {:trigger BitAt(bm[..], p)} :: BitAt(bm[..], p) <==> p == a || BitAt(old(bm[..]), p)
  {
    hide Bit, Or, Shl;
    ghost var was := bm[..];
    bm[a / 64] := Or(bm[a / 64], Shl(1, a % 64));
    forall p: nat | true ensures BitAt(bm[..], p) <==> p == a || BitAt(was, p) {
      if p / 64 == a / 64 {
        BitOr(was[a / 64], Shl(1, a % 64), p % 64);
        BitOfMask(a % 64, p % 64);
      }
    }
  }
}
