/** Positions on a cyclic buffer of `size` slots, kept linear: `Off` is how far one position lies
    ahead of another, `At` walks forward, `Next` is one step. */
module Cyclic {

  function Next(i: nat, size: nat): (r: nat)
    requires i < size
    ensures r < size
  {
    if i + 1 >= size then 0 else i + 1
  }

  function Off(base: nat, x: nat, size: nat): (r: nat)
    requires base < size && x < size
    ensures r < size
  {
    if x >= base then x - base else x + size - base
  }

  function At(base: nat, k: nat, size: nat): (r: nat)
    requires base < size && k < size
    ensures r < size
  {
    if base + k < size then base + k else base + k - size
  }

  /** Distances measured from a later base are shorter by the distance between the bases. */
  lemma Rebase(base: nat, base': nat, x: nat, size: nat)
    requires base < size && base' < size && x < size
    requires Off(base, base', size) <= Off(base, x, size)
    ensures Off(base', x, size) == Off(base, x, size) - Off(base, base', size)
  {
  }

  /** A window that is cut in two. */
  lemma OffSplit(base: nat, mid: nat, end: nat, x: nat, size: nat)
    requires base < size && mid < size && end < size && x < size
    requires Off(base, mid, size) <= Off(base, end, size)
    ensures Off(base, x, size) < Off(base, end, size) <==>
            Off(base, x, size) < Off(base, mid, size) || Off(mid, x, size) < Off(mid, end, size)
  {
  }

  lemma OffNext(base: nat, i: nat, x: nat, size: nat)
    requires base < size && i < size && x < size && Off(base, i, size) < Off(base, x, size)
    ensures Off(base, Next(i, size), size) == Off(base, i, size) + 1
  {
  }

  lemma OffDiffers(base: nat, i: nat, x: nat, size: nat)
    requires base < size && i < size && x < size
    ensures Off(base, i, size) == Off(base, x, size) <==> i == x
  {
  }

  lemma AtStart(base: nat, size: nat)
    requires base < size
    ensures At(base, 0, size) == base && Off(base, base, size) == 0
  {
  }

  lemma AtNext(base: nat, k: nat, size: nat)
    requires base < size && k + 1 < size
    ensures At(Next(base, size), k, size) == At(base, k + 1, size) != base
  {
  }

  /** The slot before the base is the furthest. */
  lemma FullIff(base: nat, i: nat, size: nat)
    requires base < size && i < size
    ensures Next(i, size) == base <==> Off(base, i, size) == size - 1
  {
  }

  lemma OneFurther(base: nat, start: nat, i: nat, k: nat, size: nat)
    requires base < size && start < size && k < size && i == At(start, k, size)
    requires k + Off(base, start, size) == Off(base, i, size) < size - 1
    ensures k + 1 < size && Next(i, size) == At(start, k + 1, size)
    ensures Off(base, Next(i, size), size) == Off(base, i, size) + 1
  {
  }

  /** The sources write the step either as `(i + 1) % size` or as an increment that is reset at `size`. */
  lemma NextIsModulo(i: nat, size: nat)
    requires i < size
    ensures Next(i, size) == (i + 1) % size
  {
    if i + 1 == size {
      assert (i + 1) % size == 0;
    } else {
      assert (i + 1) % size == i + 1;
    }
  }

  /** The slots from `from` up to, not including, `to`. */
  function Slots<T>(desc: seq<T>, from: nat, to: nat): (r: seq<T>)
    requires from < |desc| && to < |desc|
    ensures |r| == Off(from, to, |desc|)
  {
    seq(Off(from, to, |desc|), k requires 0 <= k < Off(from, to, |desc|) => desc[At(from, k, |desc|)])
  }

  /** Reading the oldest slot leaves the rest of the window. */
  lemma SlotsPop<T>(desc: seq<T>, from: nat, to: nat)
    requires from < |desc| && to < |desc| && from != to
    ensures Slots(desc, from, to) == [desc[from]] + Slots(desc, Next(from, |desc|), to)
  {
  }

  /** Writing the slot at the end and moving the end on appends to the window, and nothing else. */
  lemma SlotsPush<T>(desc: seq<T>, from: nat, to: nat, x: T)
    requires from < |desc| && to < |desc| && Next(to, |desc|) != from
    ensures Slots(desc[to := x], from, Next(to, |desc|)) == Slots(desc, from, to) + [x]
  {
  }
}
