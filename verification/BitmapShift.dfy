/** The word-level bitmap shifts of bitmap.c, against shifts of single bits. */
module BitmapShift {
  import opened Words

  /** A bitmap of bits bits, moved right (towards bit 0) by shift; bits at and above the size read as 0. */
  ghost predicate ShiftedRight(dst: seq<bv64>, src: seq<bv64>, shift: nat, bits: nat) {
    BitsToLongs(bits) <= |dst| &&
    forall p: nat {:trigger BitAt(dst, p)} | p < 64 * BitsToLongs(bits) ::
      BitAt(dst, p) <==> p + shift < bits && BitAt(src, p + shift)
  }

  ghost predicate ShiftedLeft(dst: seq<bv64>, src: seq<bv64>, shift: nat, bits: nat) {
    BitsToLongs(bits) <= |dst| &&
    forall p: nat {:trigger BitAt(dst, p)} | p < 64 * BitsToLongs(bits) ::
      BitAt(dst, p) <==> shift <= p < bits && BitAt(src, p - shift)
  }

  // ---------- what the loops write into one word ----------

  /** Word k of a bitmap with the bits past the size cleared, if it is a partial last word. */
  function Trim(w: bv64, bits: nat, k: nat): bv64 {
    if bits % 64 > 0 && k == BitsToLongs(bits) - 1 then And(w, Below(Shl(1, bits % 64))) else w
  }

  function RightWord(src: seq<bv64>, shift: nat, bits: nat, k: nat): bv64
    requires k + shift / 64 < BitsToLongs(bits) <= |src|
  {
    var off, rem, lim := shift / 64, shift % 64, BitsToLongs(bits);
    var upper := if rem == 0 || off + k + 1 >= lim then 0 else Trim(src[off + k + 1], bits, off + k + 1);
    Trim(Or(Shl(upper, 64 - rem), Shr(Trim(src[off + k], bits, off + k), rem)), bits, k)
  }

  function LeftWord(src: seq<bv64>, shift: nat, bits: nat, k: nat): bv64
    requires k + shift / 64 < BitsToLongs(bits) <= |src|
  {
    var off, rem := shift / 64, shift % 64;
    var lower := if rem > 0 && k > 0 then src[k - 1] else 0;
    Trim(Or(Shr(lower, 64 - rem), Shl(Trim(src[k], bits, k), rem)), bits, k + off)
  }

  lemma {:induction false} TrimBit(w: bv64, bits: nat, k: nat, i: nat)
    requires i < 64 && k < BitsToLongs(bits)
    ensures Bit(Trim(w, bits, k), i) <==> Bit(w, i) && 64 * k + i < bits
  {
    hide Bit, Shl, Below, And, Or;
    BitMask(bits % 64, i);
    BitAnd(w, Below(Shl(1, bits % 64)), i);
  }

  lemma {:induction false} RightWordBit(src: seq<bv64>, shift: nat, bits: nat, k: nat, i: nat)
    requires k + shift / 64 < BitsToLongs(bits) <= |src| && i < 64
    ensures Bit(RightWord(src, shift, bits, k), i) <==>
            64 * k + i + shift < bits && BitAt(src, 64 * k + i + shift)
  {
    hide Bit, Shl, Shr, Trim, And, Or, Below;
    var off, rem, lim := shift / 64, shift % 64, BitsToLongs(bits);
    var upper := if rem == 0 || off + k + 1 >= lim then 0 else Trim(src[off + k + 1], bits, off + k + 1);
    var lower := Trim(src[off + k], bits, off + k);
    TrimBit(Or(Shl(upper, 64 - rem), Shr(lower, rem)), bits, k, i);
    BitOr(Shl(upper, 64 - rem), Shr(lower, rem), i);
    BitShl(upper, 64 - rem, i);
    BitShr(lower, rem, i);
    if i + rem < 64 {
      TrimBit(src[off + k], bits, off + k, i + rem);
      WordOf(off + k, i + rem);
    } else {
      if Bit(lower, i + rem) { InRange(lower, i + rem); }
      WordOf(off + k + 1, i + rem - 64);
      if off + k + 1 < lim {
        TrimBit(src[off + k + 1], bits, off + k + 1, i + rem - 64);
      } else {
        BitZero(i + rem - 64);
      }
    }
  }

  lemma {:induction false} LeftWordBit(src: seq<bv64>, shift: nat, bits: nat, k: nat, i: nat)
    requires k + shift / 64 < BitsToLongs(bits) <= |src| && i < 64
    ensures Bit(LeftWord(src, shift, bits, k), i) <==>
            shift <= 64 * (k + shift / 64) + i < bits && BitAt(src, 64 * (k + shift / 64) + i - shift)
  {
    hide Bit, Shl, Shr, Trim, And, Or, Below;
    var off, rem := shift / 64, shift % 64;
    var lower := if rem > 0 && k > 0 then src[k - 1] else 0;
    var upper := Trim(src[k], bits, k);
    TrimBit(Or(Shr(lower, 64 - rem), Shl(upper, rem)), bits, k + off, i);
    BitOr(Shr(lower, 64 - rem), Shl(upper, rem), i);
    BitShl(upper, rem, i);
    BitShr(lower, 64 - rem, i);
    if rem <= i {
      TrimBit(src[k], bits, k, i - rem);
      WordOf(k, i - rem);
      if Bit(lower, i + 64 - rem) { InRange(lower, i + 64 - rem); }
    } else if k > 0 {
      WordOf(k - 1, i + 64 - rem);
    } else {
      BitZero(i + 64 - rem);
    }
  }

  /** Words that hold RightWord below and 0 above make the whole shifted bitmap. */
  lemma {:induction false} RightWordsShift(dst: seq<bv64>, src: seq<bv64>, shift: nat, bits: nat)
    requires BitsToLongs(bits) <= |src| && BitsToLongs(bits) <= |dst|
    requires forall k: nat | k < BitsToLongs(bits) - shift / 64 :: dst[k] == RightWord(src, shift, bits, k)
    requires forall k: nat | BitsToLongs(bits) - shift / 64 <= k < BitsToLongs(bits) :: dst[k] == 0
    ensures ShiftedRight(dst, src, shift, bits)
  {
    hide Bit, RightWord, And, Or, Below;
    forall p: nat | p < 64 * BitsToLongs(bits)
      ensures BitAt(dst, p) <==> p + shift < bits && BitAt(src, p + shift)
    {
      if p / 64 < BitsToLongs(bits) - shift / 64 {
        RightWordBit(src, shift, bits, p / 64, p % 64);
      } else {
        BitZero(p % 64);
      }
    }
  }

  lemma {:induction false} LeftWordsShift(dst: seq<bv64>, src: seq<bv64>, shift: nat, bits: nat)
    requires BitsToLongs(bits) <= |src| && BitsToLongs(bits) <= |dst|
    requires forall k | 0 <= k < shift / 64 && k < BitsToLongs(bits) :: dst[k] == 0
    requires forall k | shift / 64 <= k < BitsToLongs(bits) :: dst[k] == LeftWord(src, shift, bits, k - shift / 64)
    ensures ShiftedLeft(dst, src, shift, bits)
  {
    hide Bit, LeftWord, And, Or, Below;
    forall p: nat | p < 64 * BitsToLongs(bits)
      ensures BitAt(dst, p) <==> shift <= p < bits && BitAt(src, p - shift)
    {
      if p / 64 < shift / 64 {
        BitZero(p % 64);
      } else {
        LeftWordBit(src, shift, bits, p / 64 - shift / 64, p % 64);
      }
    }
  }

  // ---------- the two operations ----------

  /** The words, counted from the start of the bitmap, that a memset at the end of a shift clears. */
  datatype Cleared = Cleared(lo: int, hi: int) {
    predicate Has(k: int) {
      lo <= k < hi
    }

    ghost predicate Inside(lim: nat) {
      forall k: int :: Has(k) ==> 0 <= k < lim
    }
  }

  function ClearedRight(shift: nat, bits: nat): Cleared {
    Cleared(BitsToLongs(bits) - shift / 64, BitsToLongs(bits))
  }

  function ClearedLeft(shift: nat): Cleared {
    Cleared(0, shift / 64)
  }

  /** Both shifts stay inside the bitmap exactly for amounts of no more whole words than it has. */
  lemma {:induction false} ClearsInsideIff(shift: nat, bits: nat)
    ensures ClearedRight(shift, bits).Inside(BitsToLongs(bits)) <==> shift / 64 <= BitsToLongs(bits)
    ensures ClearedLeft(shift).Inside(BitsToLongs(bits)) <==> shift / 64 <= BitsToLongs(bits)
  {
    var right, left, lim := ClearedRight(shift, bits), ClearedLeft(shift), BitsToLongs(bits);
    if shift / 64 > lim {
      assert right.Has(-1) || right.Has(right.lo);
      assert left.Has(lim);
    }
  }

  /** A bitmap of one word shifted by 128: the word before it is cleared, or the one behind it. */
  lemma ClearsOutside()
    ensures ClearedRight(128, 64) == Cleared(-1, 1) && ClearedLeft(128) == Cleared(0, 2)
  {
  }

  /** One turn of the loop of __bitmap_shift_right; was is the bitmap before the shift. */
  method RightTurn(dst: array<bv64>, src: array<bv64>, base: nat, shift: nat, bits: nat, k: nat, ghost was: seq<bv64>)
    requires k + shift / 64 < BitsToLongs(bits) <= |was|
    requires base + BitsToLongs(bits) <= src.Length && base + BitsToLongs(bits) <= dst.Length
    requires forall j | k <= j < BitsToLongs(bits) :: src[base + j] == was[j]
    modifies dst
    ensures dst[..] == old(dst[..])[base + k := RightWord(was, shift, bits, k)]
  {
    hide Bit, Shl, Shr, Trim, And, Or, Below;
    var lim, left, off, rem := BitsToLongs(bits), bits % 64, shift / 64, shift % 64;
    var upper: bv64 := 0;
    if rem != 0 && off + k + 1 < lim {
      upper := src[base + off + k + 1];
      if off + k + 1 == lim - 1 && left > 0 { upper := And(upper, Below(Shl(1, left))); }
      assert upper == Trim(was[off + k + 1], bits, off + k + 1) by { TrimWord(was[off + k + 1], bits, off + k + 1); }
    }
    var lower := src[base + off + k];
    if left > 0 && off + k == lim - 1 { lower := And(lower, Below(Shl(1, left))); }
    assert lower == Trim(was[off + k], bits, off + k) by { TrimWord(was[off + k], bits, off + k); }
    hide BitsToLongs;
    dst[base + k] := Or(Shl(upper, 64 - rem), Shr(lower, rem));
    TrimWord(dst[base + k], bits, k);
    if left > 0 && k == lim - 1 { dst[base + k] := And(dst[base + k], Below(Shl(1, left))); }
  }

  /**
   * __bitmap_shift_right. The bitmap is at the words base and above of dst, and of src, which may be the same array.
   * For every amount it is shifted; with more words than it has, the memset also clears words before it.
   */
  method Right(dst: array<bv64>, src: array<bv64>, base: nat, shift: nat, bits: nat)
    requires base + BitsToLongs(bits) <= src.Length && base + BitsToLongs(bits) <= dst.Length
    requires base + ClearedRight(shift, bits).lo >= 0
    modifies dst
    ensures ShiftedRight(dst[base..], old(src[base..]), shift, bits)
    ensures forall k: nat | k < dst.Length && !(base <= k < base + BitsToLongs(bits)) ::
              dst[k] == if base + ClearedRight(shift, bits).lo <= k < base then 0 else old(dst[k])
  {
    hide RightWord, Bit;
    ghost var was := src[base..];
    var lim, off := BitsToLongs(bits), shift / 64;
    var k: nat := 0;
    while off + k < lim
      invariant k == 0 || k + off <= lim
      invariant forall j: nat | k <= j < lim :: src[base + j] == was[j]
      invariant forall j | base <= j < base + k :: dst[j] == RightWord(was, shift, bits, j - base)
      invariant forall j | 0 <= j < dst.Length && !(base <= j < base + lim) :: dst[j] == old(dst[j])
    {
      RightTurn(dst, src, base, shift, bits, k, was);
      k := k + 1;
    }
    Clear(dst, base + lim - off, off);
    RightWordsShift(dst[base..], was, shift, bits);
  }

  /** One turn of the loop of __bitmap_shift_left. */
  method LeftTurn(dst: array<bv64>, src: array<bv64>, shift: nat, bits: nat, k: nat, ghost was: seq<bv64>)
    requires k + shift / 64 < BitsToLongs(bits) <= |was|
    requires BitsToLongs(bits) <= src.Length && BitsToLongs(bits) <= dst.Length
    requires forall j: nat | j <= k :: src[j] == was[j]
    modifies dst
    ensures dst[..] == old(dst[..])[k + shift / 64 := LeftWord(was, shift, bits, k)]
  {
    hide Bit, Shl, Shr, Trim, And, Or, Below;
    var lim, left, off, rem := BitsToLongs(bits), bits % 64, shift / 64, shift % 64;
    var lower: bv64 := if rem > 0 && k > 0 then src[k - 1] else 0;
    var upper := src[k];
    if left > 0 && k == lim - 1 { upper := And(upper, Below(Shl(1, left))); }
    TrimWord(was[k], bits, k);
    dst[k + off] := Or(Shr(lower, 64 - rem), Shl(upper, rem));
    TrimWord(dst[k + off], bits, k + off);
    if left > 0 && k + off == lim - 1 { dst[k + off] := And(dst[k + off], Below(Shl(1, left))); }
  }

  /**
   * __bitmap_shift_left; dst and src may be the same array. For every amount the bitmap is shifted; with more words
   * than it has, the memset also clears words behind it.
   */
  method Left(dst: array<bv64>, src: array<bv64>, shift: nat, bits: nat)
    requires BitsToLongs(bits) <= src.Length && BitsToLongs(bits) <= dst.Length
    requires ClearedLeft(shift).hi <= dst.Length
    modifies dst
    ensures ShiftedLeft(dst[..], old(src[..]), shift, bits)
    ensures forall k | BitsToLongs(bits) <= k < dst.Length ::
              dst[k] == if k < ClearedLeft(shift).hi then 0 else old(dst[k])
  {
    hide LeftWord, Bit;
    ghost var was := src[..];
    var lim, off := BitsToLongs(bits), shift / 64;
    var k: int := lim - off - 1;
    while k >= 0
      invariant k < lim - off && (k >= -1 || k == lim - off - 1)
      invariant forall j | 0 <= j <= k :: src[j] == was[j]
      invariant forall j | off <= j < lim && k < j - off :: dst[j] == LeftWord(was, shift, bits, j - off)
      invariant forall j | lim <= j < dst.Length :: dst[j] == old(dst[j])
    {
      LeftTurn(dst, src, shift, bits, k, was);
      k := k - 1;
    }
    Clear(dst, 0, off);
    LeftWordsShift(dst[..], was, shift, bits);
  }

  lemma TrimWord(w: bv64, bits: nat, k: nat)
    ensures Trim(w, bits, k) ==
            if bits % 64 > 0 && k == BitsToLongs(bits) - 1 then And(w, Below(Shl(1, bits % 64))) else w
  {
  }

  /** memset of n words to 0 */
  method Clear(dst: array<bv64>, start: nat, n: nat)
    requires start + n <= dst.Length
    modifies dst
    ensures forall k | start <= k < start + n :: dst[k] == 0
    ensures forall k | 0 <= k < dst.Length && !(start <= k < start + n) :: dst[k] == old(dst[k])
  {
    for i := 0 to n
      invariant forall k | start <= k < start + i :: dst[k] == 0
      invariant forall k | 0 <= k < dst.Length && !(start <= k < start + i) :: dst[k] == old(dst[k])
    {
      dst[start + i] := 0;
    }
  }

  // ---------- laws of the shifts ----------

  /** Left then right by the same amount loses exactly the top shift bits. */
  lemma {:induction false} LeftThenRight(a: seq<bv64>, b: seq<bv64>, c: seq<bv64>, shift: nat, bits: nat, p: nat)
    requires ShiftedLeft(b, a, shift, bits) && ShiftedRight(c, b, shift, bits) && p < bits
    ensures BitAt(c, p) <==> p + shift < bits && BitAt(a, p)
  {
    hide BitAt, And, Or, Below;
    if p + shift < bits {
      assert BitAt(b, p + shift) <==> BitAt(a, p + shift - shift);
    }
  }

  /** Right then left by the same amount loses exactly the bottom shift bits. */
  lemma {:induction false} RightThenLeft(a: seq<bv64>, b: seq<bv64>, c: seq<bv64>, shift: nat, bits: nat, p: nat)
    requires ShiftedRight(b, a, shift, bits) && ShiftedLeft(c, b, shift, bits) && p < bits
    ensures BitAt(c, p) <==> shift <= p && BitAt(a, p)
  {
    hide BitAt, And, Or, Below;
    if shift <= p {
      assert BitAt(b, p - shift) <==> BitAt(a, p - shift + shift);
    }
  }

  /** Two shifts left are one shift left by the sum. */
  lemma {:induction false} LeftTwice(a: seq<bv64>, b: seq<bv64>, c: seq<bv64>, s: nat, t: nat, bits: nat)
    requires ShiftedLeft(b, a, s, bits) && ShiftedLeft(c, b, t, bits)
    ensures ShiftedLeft(c, a, s + t, bits)
  {
    hide BitAt, And, Or, Below;
    forall p: nat | p < 64 * BitsToLongs(bits)
      ensures BitAt(c, p) <==> s + t <= p < bits && BitAt(a, p - (s + t))
    {
      if t <= p < bits {
        assert BitAt(b, p - t) <==> s <= p - t < bits && BitAt(a, p - t - s);
      }
    }
  }
}
