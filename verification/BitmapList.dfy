/** bitmap_scnlistprintf and bitmap_parselist: decimal text of the runs of set bits. */
module BitmapList {
  import opened Words
  import Shift = BitmapShift
  import Hex = BitmapHex

  datatype Range = Range(lo: nat, hi: nat)

  predicate Within(r: Range, p: nat) {
    r.lo <= p <= r.hi
  }

  ghost predicate Covers(ranges: seq<Range>, p: nat) {
    exists k {:trigger ranges[k]} :: 0 <= k < |ranges| && Within(ranges[k], p)
  }

  // ---------- the runs of a bitmap ----------

  /** The first clear bit at from or above, size if all are set. */
  function FindClear(bm: seq<bv64>, size: nat, from: nat): (r: nat)
    requires from <= size
    ensures from <= r <= size && (r < size ==> !BitAt(bm, r))
    ensures forall p {:trigger BitAt(bm, p)} | from <= p < r :: BitAt(bm, p)
    decreases size - from
  {
    if from == size || !BitAt(bm, from) then from else FindClear(bm, size, from + 1)
  }

  /** The maximal runs of set bits at from and above. */
  function Runs(bm: seq<bv64>, size: nat, from: nat): seq<Range>
    decreases size - from
  {
    var lo := FindNext(bm, size, from);
    if lo >= size then []
    else
      var end := FindClear(bm, size, lo);
      [Range(lo, end - 1)] + Runs(bm, size, end)
  }

  /** Ranges that are not empty, lie below size and leave a gap between each other. */
  ghost predicate Proper(ranges: seq<Range>, size: nat) {
    (forall k {:trigger ranges[k]} | 0 <= k < |ranges| :: ranges[k].lo <= ranges[k].hi < size) &&
    (forall j, k {:trigger ranges[j], ranges[k]} | 0 <= j < k < |ranges| :: ranges[j].hi + 1 < ranges[k].lo)
  }

  lemma {:induction false} RunsProper(bm: seq<bv64>, size: nat, from: nat)
    ensures Proper(Runs(bm, size, from), size)
    ensures forall k {:trigger Runs(bm, size, from)[k]} | 0 <= k < |Runs(bm, size, from)| ::
              from <= Runs(bm, size, from)[k].lo
    decreases size - from
  {
    hide BitAt;
    var lo := FindNext(bm, size, from);
    if lo < size {
      var end := FindClear(bm, size, lo);
      RunsProper(bm, size, end);
      var rest := Runs(bm, size, end);
      if rest != [] {
        assert rest[0].lo == FindNext(bm, size, end);
        assert BitAt(bm, rest[0].lo);
      }
    }
  }

  lemma {:induction false} CoversCons(r: Range, rest: seq<Range>, p: nat)
    ensures Covers([r] + rest, p) <==> Within(r, p) || Covers(rest, p)
  {
    var all := [r] + rest;
    if Within(r, p) { assert all[0] == r; }
    if Covers(rest, p) {
      var k :| 0 <= k < |rest| && Within(rest[k], p);
      assert all[k + 1] == rest[k];
    }
    if Covers(all, p) {
      var k :| 0 <= k < |all| && Within(all[k], p);
      if k > 0 { assert all[k] == rest[k - 1]; }
    }
  }

  lemma {:induction false} CoversSnoc(ranges: seq<Range>, r: Range, p: nat)
    ensures Covers(ranges + [r], p) <==> Covers(ranges, p) || Within(r, p)
  {
    var all := ranges + [r];
    if Within(r, p) { assert all[|ranges|] == r; }
    if Covers(ranges, p) {
      var k :| 0 <= k < |ranges| && Within(ranges[k], p);
      assert all[k] == ranges[k];
    }
  }

  /** The runs cover exactly the set bits. */
  lemma {:induction false} RunsCover(bm: seq<bv64>, size: nat, from: nat, p: nat)
    ensures Covers(Runs(bm, size, from), p) <==> from <= p < size && BitAt(bm, p)
    decreases size - from
  {
    hide BitAt, Covers;
    var lo := FindNext(bm, size, from);
    if lo < size {
      var end := FindClear(bm, size, lo);
      RunsCover(bm, size, end, p);
      CoversCons(Range(lo, end - 1), Runs(bm, size, end), p);
    } else {
      CoversNone(p);
    }
  }

  lemma CoversNone(p: nat)
    ensures !Covers([], p)
  {
  }

  // ---------- the text ----------

  function DigitChar(d: nat): char
    requires d < 10
  {
    '0' + d as char
  }

  predicate IsDigit(c: char) {
    '0' <= c <= '9'
  }

  /** printf's %d of a number that is not negative */
  function Decimal(n: nat): string {
    if n < 10 then [DigitChar(n)] else Decimal(n / 10) + [DigitChar(n % 10)]
  }

  function RangeText(r: Range): string {
    if r.lo == r.hi then Decimal(r.lo) else Decimal(r.lo) + "-" + Decimal(r.hi)
  }

  function Joined(ranges: seq<Range>): string {
    if ranges == [] then ""
    else if |ranges| == 1 then RangeText(ranges[0])
    else RangeText(ranges[0]) + "," + Joined(ranges[1..])
  }

  function FullText(bm: seq<bv64>, nmaskbits: nat): string {
    Joined(Runs(bm, nmaskbits, 0))
  }

  lemma {:induction false} JoinedSnoc(ranges: seq<Range>, r: Range)
    ensures Joined(ranges + [r]) == Joined(ranges) + (if ranges == [] then "" else ",") + RangeText(r)
  {
    hide RangeText;
    if |ranges| > 1 {
      assert (ranges + [r])[1..] == ranges[1..] + [r];
      JoinedSnoc(ranges[1..], r);
    } else if |ranges| == 1 {
      assert (ranges + [r])[1..] == [r];
    }
  }

  lemma {:induction false} TextNotEmpty(ranges: seq<Range>)
    ensures ranges != [] ==> Joined(ranges) != ""
  {
  }

  /** bscnl_emit; returns how long the text in the buffer is then, not how long it would be if it all fitted. */
  method Emit(buf: string, buflen: nat, rbot: nat, rtop: nat, len: nat, ghost done: seq<Range>)
    returns (more: string, newLen: nat)
    requires 0 < buflen && buf == Hex.Fitting(Joined(done), buflen) && len == |buf|
    ensures more == Hex.Fitting(Joined(done + [Range(rbot, rtop)]), buflen) && newLen == |more|
  {
    hide RangeText, Joined;
    JoinedSnoc(done, Range(rbot, rtop));
    TextNotEmpty(done);
    NoRanges();
    var n;
    more, newLen := buf, len;
    Hex.FittingTwice(Joined(done), buflen);
    if len > 0 {
      Hex.FittingAppend(Joined(done), ",", buflen);
      more, n := Hex.Scnprintf(buf, ",", buflen);
      newLen := len + n;
    }
    ghost var before := Joined(done) + if |buf| > 0 then "," else "";
    Hex.FittingTwice(before, buflen);
    Hex.FittingAppend(before, RangeText(Range(rbot, rtop)), buflen);
    if rbot == rtop {
      more, n := Hex.Scnprintf(more, Decimal(rbot), buflen);
    } else {
      more, n := Hex.Scnprintf(more, Decimal(rbot) + "-" + Decimal(rtop), buflen);
    }
    newLen := newLen + n;
    assert more == Hex.Fitting(before + RangeText(Range(rbot, rtop)), buflen) by {
      RangeTextCases(Range(rbot, rtop));
    }
  }

  lemma NoRanges()
    ensures Joined([]) == ""
  {
  }

  lemma RangeTextCases(r: Range)
    ensures RangeText(r) == if r.lo == r.hi then Decimal(r.lo) else Decimal(r.lo) + "-" + Decimal(r.hi)
  {
  }

  /** bits rbot to cur are set, and the runs before rbot are done. */
  ghost predicate Printing(bm: seq<bv64>, size: nat, rbot: nat, cur: nat, done: seq<Range>) {
    && rbot <= cur <= size && (cur < size ==> BitAt(bm, cur)) && (cur == size ==> rbot == cur)
    && (forall p: nat {:trigger BitAt(bm, p)} | rbot <= p < cur :: BitAt(bm, p))
    && done + Runs(bm, size, rbot) == Runs(bm, size, 0)
  }

  /** The promise of bitmap.c:546-549, that the length of the whole text comes back, fails for a buffer of one byte. */
  lemma LengthTooShort()
    ensures FullText([1], 1) == "0" && |Hex.Fitting(FullText([1], 1), 1)| == 0
  {
    assert BitAt([1], 0) by { BitZeroSet(); }
    OneRun([1], 1, 0, 0);
    NoRuns([1], 1);
  }

  lemma BitZeroSet()
    ensures Bit(1, 0)
  {
  }

  /**
   * bitmap_scnlistprintf; buf is the text in the buffer before its terminating NUL. It returns the length of the whole
   * text, as promised, exactly if that fits into the buffer, and otherwise less.
   */
  method Print(bm: array<bv64>, nmaskbits: nat, buflen: nat) returns (buf: string, len: nat)
    requires BitsToLongs(nmaskbits) <= bm.Length
    ensures buf == Hex.Fitting(FullText(bm[..], nmaskbits), buflen) && len == |buf|
    ensures var text := FullText(bm[..], nmaskbits);
            len <= |text| && (len == |text| <==> |text| < buflen || text == "")
  {
    hide BitAt, Joined, Printing, Runs;
    ghost var bits := bm[..];
    Hex.FittingLength(FullText(bits, nmaskbits), buflen);
    buf, len := "", 0;
    if buflen == 0 { return; }
    NoRanges();
    ghost var done: seq<Range> := [];
    var cur: nat := FindNext(bm[..], nmaskbits, 0);
    var rbot: nat := cur;
    StartPrinting(bits, nmaskbits);
    while cur < nmaskbits
      invariant Printing(bits, nmaskbits, rbot, cur, done) && cur <= nmaskbits
      invariant buf == Hex.Fitting(Joined(done), buflen) && len == |buf|
    {
      var rtop: nat := cur;
      cur := FindNext(bm[..], nmaskbits, cur + 1);
      PrintStep(bits, nmaskbits, rbot, rtop, done);
      if cur >= nmaskbits || cur > rtop + 1 {
        buf, len := Emit(buf, buflen, rbot, rtop, len, done);
        done := done + [Range(rbot, rtop)];
        rbot := cur;
      }
    }
    DonePrinting(bits, nmaskbits, rbot, cur, done);
  }

  lemma {:induction false} StartPrinting(bm: seq<bv64>, size: nat)
    ensures var cur := FindNext(bm, size, 0); Printing(bm, size, cur, cur, [])
  {
    hide BitAt;
    SameRuns(bm, size, 0);
  }

  lemma {:induction false} PrintStep(bm: seq<bv64>, size: nat, rbot: nat, rtop: nat, done: seq<Range>)
    requires Printing(bm, size, rbot, rtop, done) && rtop < size
    ensures rbot <= rtop
    ensures var cur := FindNext(bm, size, rtop + 1);
            if cur >= size || cur > rtop + 1 then Printing(bm, size, cur, cur, done + [Range(rbot, rtop)])
            else Printing(bm, size, rbot, cur, done)
  {
    hide BitAt, Runs;
    var cur := FindNext(bm, size, rtop + 1);
    if cur >= size || cur > rtop + 1 {
      OneRun(bm, size, rbot, rtop);
      SameRuns(bm, size, rtop + 1);
      assert done + [Range(rbot, rtop)] + Runs(bm, size, rtop + 1) == done + Runs(bm, size, rbot);
    }
  }

  lemma {:induction false} DonePrinting(bm: seq<bv64>, size: nat, rbot: nat, cur: nat, done: seq<Range>)
    requires Printing(bm, size, rbot, cur, done) && cur >= size
    ensures done == Runs(bm, size, 0)
  {
    hide BitAt;
    NoRuns(bm, size);
    assert done + [] == done;
  }

  lemma SameRuns(bm: seq<bv64>, size: nat, from: nat)
    requires from <= size
    ensures Runs(bm, size, FindNext(bm, size, from)) == Runs(bm, size, from)
  {
    hide BitAt;
  }

  lemma NoRuns(bm: seq<bv64>, size: nat)
    ensures Runs(bm, size, size) == []
  {
  }

  lemma {:induction false} OneRun(bm: seq<bv64>, size: nat, lo: nat, hi: nat)
    requires lo <= hi < size
    requires forall p: nat {:trigger BitAt(bm, p)} | lo <= p <= hi :: BitAt(bm, p)
    requires hi + 1 == size || !BitAt(bm, hi + 1)
    ensures Runs(bm, size, lo) == [Range(lo, hi)] + Runs(bm, size, hi + 1)
  {
    hide BitAt;
    assert BitAt(bm, lo);
    var end := FindClear(bm, size, lo);
  }

  // ---------- parsing ----------

  datatype Error = EInval | ERange

  datatype Parsed = Accepted(ranges: seq<Range>) | Rejected(error: Error)

  datatype Number = Number(value: nat, rest: string)

  /** The character a pointer into a NUL-terminated text sees. */
  function Head(s: string): char {
    if s == "" then '\0' else s[0]
  }

  function Rest(s: string): string {
    if s == "" then "" else s[1..]
  }

  /** simple_strtoul in base 10: an unsigned long of 64 bits, and where it stopped. */
  function Strtoul(s: string, value: nat): (n: Number)
    ensures |n.rest| <= |s| && (IsDigit(Head(s)) ==> |n.rest| < |s|)
    ensures !IsDigit(Head(n.rest))
  {
    if IsDigit(Head(s)) then Strtoul(s[1..], (10 * value + (s[0] - '0') as nat) % 0x1_0000_0000_0000_0000)
    else Number(value, s)
  }

  const UINT: nat := 0x1_0000_0000

  /** One range of the list, with what follows it. */
  datatype Item = Item(range: Range, rest: string) | Bad(error: Error)

  /** The two bounds of a range, or one number twice. */
  datatype Bounds = Bounds(a: nat, b: nat, rest: string) | NoBounds

  function ParseBounds(s: string): (bounds: Bounds)
    ensures bounds.Bounds? ==> |bounds.rest| < |s|
  {
    if !IsDigit(Head(s)) then NoBounds
    else
      var first := Strtoul(s, 0);
      if Head(first.rest) != '-' then Bounds(first.value % UINT, first.value % UINT, first.rest)
      else if !IsDigit(Head(Rest(first.rest))) then NoBounds
      else
        var last := Strtoul(Rest(first.rest), 0);
        Bounds(first.value % UINT, last.value % UINT, last.rest)
  }

  function ParseItem(s: string, nmaskbits: nat): (item: Item)
    ensures item.Item? ==> |item.rest| < |s| && item.range.lo <= item.range.hi < nmaskbits
  {
    match ParseBounds(s)
    case NoBounds => Bad(EInval)
    case Bounds(a, b, rest) =>
      if a > b then Bad(EInval)
      else if b >= nmaskbits then Bad(ERange)
      else Item(Range(a, b), if Head(rest) == ',' then Rest(rest) else rest)
  }

  /** The loop of bitmap_parselist, once ranges have been read. */
  function ParseFrom(s: string, ranges: seq<Range>, nmaskbits: nat): Parsed
    decreases |s|
  {
    match ParseItem(s, nmaskbits)
    case Bad(error) => Rejected(error)
    case Item(range, rest) =>
      if Head(rest) != '\0' && Head(rest) != '\n' then ParseFrom(rest, ranges + [range], nmaskbits)
      else Accepted(ranges + [range])
  }

  function ParseText(s: string, nmaskbits: nat): Parsed {
    ParseFrom(s, [], nmaskbits)
  }

  /** The bitmap has exactly the bits of the ranges. */
  ghost predicate Holds(bm: seq<bv64>, ranges: seq<Range>, nmaskbits: nat) {
    BitsToLongs(nmaskbits) <= |bm| &&
    forall p: nat {:trigger BitAt(bm, p)} | p < 64 * BitsToLongs(nmaskbits) :: BitAt(bm, p) <==> Covers(ranges, p)
  }

  method ReadNumber(bp: string, start: nat) returns (value: nat, pos: nat)
    requires start <= |bp|
    ensures start <= pos <= |bp| && Number(value, bp[pos..]) == Strtoul(bp[start..], 0)
  {
    value, pos := 0, start;
    while pos < |bp| && IsDigit(bp[pos])
      invariant start <= pos <= |bp|
      invariant Strtoul(bp[pos..], value) == Strtoul(bp[start..], 0)
    {
      assert bp[pos..][1..] == bp[pos + 1..];
      value := (10 * value + (bp[pos] - '0') as nat) % 0x1_0000_0000_0000_0000;
      pos := pos + 1;
    }
  }

  /** The while loop that sets bits a to b. */
  method SetRange(maskp: array<bv64>, a: nat, b: nat, ghost ranges: seq<Range>, nmaskbits: nat)
    requires a <= b < nmaskbits && Holds(maskp[..], ranges, nmaskbits)
    modifies maskp
    ensures Holds(maskp[..], ranges + [Range(a, b)], nmaskbits)
  {
    hide BitAt, Covers;
    var i := a;
    while i <= b
      invariant a <= i <= b + 1
      invariant forall p: nat {:trigger BitAt(maskp[..], p)} | p < 64 * BitsToLongs(nmaskbits) ::
                  BitAt(maskp[..], p) <==> Covers(ranges, p) || a <= p < i
    {
      SetBit(maskp, i);
      i := i + 1;
    }
    forall p: nat | true ensures Covers(ranges + [Range(a, b)], p) <==> Covers(ranges, p) || a <= p <= b {
      CoversSnoc(ranges, Range(a, b), p);
    }
  }

  method ReadBounds(bp: string, start: nat) returns (a: nat, b: nat, pos: nat, error: int)
    requires start <= |bp|
    ensures start <= pos <= |bp| && error in {0, -22}
    ensures ParseBounds(bp[start..]) == if error == 0 then Bounds(a, b, bp[pos..]) else NoBounds
  {
    hide IsDigit, Strtoul;
    NulNoDigit();
    a, b, pos, error := 0, 0, start, 0;
    if pos == |bp| || !IsDigit(bp[pos]) { return a, b, pos, -22; }
    a, pos := ReadNumber(bp, pos);
    a := a % UINT;
    b := a;
    if pos < |bp| && bp[pos] == '-' {
      pos := pos + 1;
      assert Rest(bp[pos - 1..]) == bp[pos..];
      if pos == |bp| || !IsDigit(bp[pos]) { return a, b, pos, -22; }
      b, pos := ReadNumber(bp, pos);
      b := b % UINT;
    }
  }

  /** One turn of the loop up to the range it has found. */
  method ReadItem(bp: string, start: nat, nmaskbits: nat) returns (a: nat, b: nat, pos: nat, error: int)
    requires start <= |bp|
    ensures start <= pos <= |bp| && error in {0, -22, -34}
    ensures error == 0 ==> ParseItem(bp[start..], nmaskbits) == Item(Range(a, b), bp[pos..])
    ensures error != 0 ==> ParseItem(bp[start..], nmaskbits) == Bad(if error == -22 then EInval else ERange)
  {
    hide ParseBounds;
    a, b, pos, error := ReadBounds(bp, start);
    if error != 0 { return; }
    if !(a <= b) { return a, b, pos, -22; }
    if b >= nmaskbits { return a, b, pos, -34; }
    if pos < |bp| && bp[pos] == ',' {
      pos := pos + 1;
      assert Rest(bp[pos - 1..]) == bp[pos..];
    }
  }

  /** bitmap_parselist of a text that ends with a NUL, which is not part of bp. */
  method Parse(bp: string, maskp: array<bv64>, nmaskbits: nat) returns (error: int)
    requires BitsToLongs(nmaskbits) <= maskp.Length
    modifies maskp
    ensures var parsed := ParseText(bp, nmaskbits);
            if error == 0 then parsed.Accepted? && Holds(maskp[..], parsed.ranges, nmaskbits)
            else parsed == Rejected(if error == -22 then EInval else ERange)
    ensures error in {0, -22, -34}
  {
    hide Holds, ParseItem;
    Shift.Clear(maskp, 0, BitsToLongs(nmaskbits));
    ghost var ranges: seq<Range> := [];
    NoneHeld(maskp[..], nmaskbits);
    error := 0;
    var pos: nat := 0;
    assert bp[0..] == bp;
    while true
      invariant pos <= |bp| && Holds(maskp[..], ranges, nmaskbits)
      invariant ParseText(bp, nmaskbits) == ParseFrom(bp[pos..], ranges, nmaskbits)
      decreases |bp| - pos
    {
      var a, b;
      a, b, pos, error := ReadItem(bp, pos, nmaskbits);
      if error != 0 { return; }
      SetRange(maskp, a, b, ranges, nmaskbits);
      ranges := ranges + [Range(a, b)];
      if !(pos < |bp| && bp[pos] != '\0' && bp[pos] != '\n') { break; }
    }
  }

  lemma NulNoDigit()
    ensures !IsDigit('\0')
  {
  }

  lemma {:induction false} NoneHeld(bm: seq<bv64>, nmaskbits: nat)
    requires BitsToLongs(nmaskbits) <= |bm| && forall k | 0 <= k < BitsToLongs(nmaskbits) :: bm[k] == 0
    ensures Holds(bm, [], nmaskbits)
  {
    hide Bit;
    forall p: nat | p < 64 * BitsToLongs(nmaskbits) ensures !BitAt(bm, p) { BitZero(p % 64); }
  }

  // ---------- what is read, and what is refused ----------

  predicate AllDigits(ds: string) {
    forall k | 0 <= k < |ds| :: IsDigit(ds[k])
  }

  /** The number that decimal digits stand for. */
  function Value(ds: string): nat
    requires AllDigits(ds)
  {
    if ds == "" then 0 else 10 * Value(ds[..|ds| - 1]) + (ds[|ds| - 1] - '0') as nat
  }

  lemma ModuloStep(x: nat, d: nat)
    ensures (10 * (x % 0x1_0000_0000_0000_0000) + d) % 0x1_0000_0000_0000_0000 ==
            (10 * x + d) % 0x1_0000_0000_0000_0000
  {
    var q, r := x / 0x1_0000_0000_0000_0000, x % 0x1_0000_0000_0000_0000;
    assert 10 * x + d == (10 * r + d) + 0x1_0000_0000_0000_0000 * (10 * q);
  }

  lemma {:induction false} ReadDigits(ds: string, tail: string)
    requires AllDigits(ds)
    ensures Strtoul(ds + tail, 0) == Strtoul(tail, Value(ds) % 0x1_0000_0000_0000_0000)
    decreases |ds|
  {
    hide Strtoul;
    if ds == "" {
      assert ds + tail == tail;
    } else {
      var init, d := ds[..|ds| - 1], (ds[|ds| - 1] - '0') as nat;
      ReadDigits(init, [ds[|ds| - 1]] + tail);
      assert ds + tail == init + ([ds[|ds| - 1]] + tail);
      NextDigit(ds[|ds| - 1], tail, Value(init) % 0x1_0000_0000_0000_0000);
      ModuloStep(Value(init), d);
    }
  }

  lemma NextDigit(c: char, tail: string, value: nat)
    requires IsDigit(c)
    ensures Strtoul([c] + tail, value) == Strtoul(tail, (10 * value + (c - '0') as nat) % 0x1_0000_0000_0000_0000)
  {
    assert ([c] + tail)[1..] == tail;
  }

  /** An unsigned int keeps the low half of what simple_strtoul gives. */
  lemma LowHalf(x: nat)
    ensures (x % 0x1_0000_0000_0000_0000) % 0x1_0000_0000 == x % 0x1_0000_0000
  {
    var q, r := x / 0x1_0000_0000_0000_0000, x % 0x1_0000_0000_0000_0000;
    assert x == r + 0x1_0000_0000 * (0x1_0000_0000 * q);
  }

  /** A number alone, which may have leading zeros and is cut to 32 bits, is a range of one bit. */
  lemma {:induction false} NumberItem(ds: string, tail: string, nmaskbits: nat)
    requires AllDigits(ds) && ds != "" && (tail == "" || (!IsDigit(tail[0]) && tail[0] != '-'))
    ensures var v := Value(ds) % 0x1_0000_0000;
            ParseItem(ds + tail, nmaskbits) ==
            if v >= nmaskbits then Bad(ERange)
            else Item(Range(v, v), if tail != "" && tail[0] == ',' then tail[1..] else tail)
  {
    hide Strtoul, Value;
    assert Head(ds + tail) == ds[0];
    ReadDigits(ds, tail);
    ReadStops(Value(ds) % 0x1_0000_0000_0000_0000, tail);
    LowHalf(Value(ds));
  }

  /** Two numbers: EINVAL if the first is the larger one, and only then ERANGE if the second is too large. */
  lemma {:induction false} RangeItem(ds: string, es: string, tail: string, nmaskbits: nat)
    requires AllDigits(ds) && AllDigits(es) && ds != "" && es != "" && (tail == "" || !IsDigit(tail[0]))
    ensures var a, b := Value(ds) % 0x1_0000_0000, Value(es) % 0x1_0000_0000;
            ParseItem(ds + "-" + es + tail, nmaskbits) ==
            if a > b then Bad(EInval)
            else if b >= nmaskbits then Bad(ERange)
            else Item(Range(a, b), if tail != "" && tail[0] == ',' then tail[1..] else tail)
  {
    hide Strtoul, Value;
    var second := es + tail;
    assert ds + "-" + es + tail == ds + (['-'] + second);
    assert Head(ds + (['-'] + second)) == ds[0] && Head(second) == es[0];
    ReadDigits(ds, ['-'] + second);
    ReadStops(Value(ds) % 0x1_0000_0000_0000_0000, ['-'] + second);
    assert Rest(['-'] + second) == second;
    ReadDigits(es, tail);
    ReadStops(Value(es) % 0x1_0000_0000_0000_0000, tail);
    LowHalf(Value(ds));
    LowHalf(Value(es));
  }

  /** EINVAL where a number should be and is not, also behind a minus. */
  lemma {:induction false} NoNumber(ds: string, tail: string, nmaskbits: nat)
    requires AllDigits(ds) && (tail == "" || !IsDigit(tail[0]))
    ensures ParseItem(tail, nmaskbits) == Bad(EInval)
    ensures ds != "" ==> ParseItem(ds + "-" + tail, nmaskbits) == Bad(EInval)
  {
    hide Strtoul, Value;
    NulNoDigit();
    if ds != "" {
      assert ds + "-" + tail == ds + (['-'] + tail);
      assert Head(ds + (['-'] + tail)) == ds[0];
      ReadDigits(ds, ['-'] + tail);
      ReadStops(Value(ds) % 0x1_0000_0000_0000_0000, ['-'] + tail);
      assert Rest(['-'] + tail) == tail;
    }
  }

  /** A printed number has the digits of its value and no leading zero. */
  lemma {:induction false} DecimalIs(n: nat)
    ensures AllDigits(Decimal(n)) && Value(Decimal(n)) == n && Decimal(n) != ""
    ensures n > 0 ==> Decimal(n)[0] != '0'
  {
    if n >= 10 {
      DecimalIs(n / 10);
      assert Decimal(n)[..|Decimal(n)| - 1] == Decimal(n / 10);
    } else {
      assert Decimal(n)[..0] == "";
    }
  }

  // ---------- printing and parsing back ----------

  lemma {:induction false} DecimalDigits(n: nat)
    ensures Decimal(n) != "" && IsDigit(Decimal(n)[0])
  {
    if n >= 10 { DecimalDigits(n / 10); }
  }

  /** Reading one digit. */
  lemma {:induction false} ReadDigit(d: nat, tail: string, value: nat)
    requires d < 10 && 10 * value + d < 0x1_0000_0000_0000_0000
    ensures Strtoul([DigitChar(d)] + tail, value) == Strtoul(tail, 10 * value + d)
  {
    assert ([DigitChar(d)] + tail)[1..] == tail;
  }

  /** A printed number is read back, up to the first character that is no digit. */
  lemma {:induction false} ReadDecimal(n: nat, tail: string)
    requires n < 0x1_0000_0000_0000_0000
    ensures Strtoul(Decimal(n) + tail, 0) == Strtoul(tail, n)
  {
    hide DigitChar, Strtoul;
    var d := [DigitChar(n % 10)] + tail;
    if n < 10 {
      ReadDigit(n, tail, 0);
      assert Decimal(n) + tail == d;
    } else {
      ReadDigit(n % 10, tail, n / 10);
      ReadDecimal(n / 10, d);
      assert Decimal(n) + tail == Decimal(n / 10) + d;
    }
  }

  lemma {:induction false} ReadOne(n: nat, tail: string, nmaskbits: nat)
    requires n < nmaskbits <= UINT
    requires tail == "" || tail[0] == ',' || tail[0] == '\n'
    ensures ParseBounds(Decimal(n) + tail) == Bounds(n, n, tail)
  {
    hide Decimal;
    DecimalDigits(n);
    ReadDecimal(n, tail);
    ReadStops(n, tail);
  }

  lemma ReadStops(n: nat, tail: string)
    requires tail == "" || !IsDigit(tail[0])
    ensures Strtoul(tail, n) == Number(n, tail)
  {
    NulNoDigit();
  }

  lemma {:induction false} ReadTwo(a: nat, b: nat, tail: string, nmaskbits: nat)
    requires a < nmaskbits <= UINT && b < nmaskbits
    requires tail == "" || tail[0] == ',' || tail[0] == '\n'
    ensures ParseBounds(Decimal(a) + "-" + Decimal(b) + tail) == Bounds(a, b, tail)
  {
    hide Decimal, Strtoul;
    DecimalDigits(a);
    DecimalDigits(b);
    var second := Decimal(b) + tail;
    assert Decimal(a) + "-" + Decimal(b) + tail == Decimal(a) + (['-'] + second);
    ReadDecimal(a, ['-'] + second);
    ReadStops(a, ['-'] + second);
    assert Rest(['-'] + second) == second;
    ReadDecimal(b, tail);
    ReadStops(b, tail);
  }

  lemma {:induction false} ReadRange(r: Range, tail: string, nmaskbits: nat)
    requires r.lo <= r.hi < nmaskbits <= UINT
    requires tail == "" || tail[0] == ',' || tail[0] == '\n'
    ensures ParseItem(RangeText(r) + tail, nmaskbits) == Item(r, if Head(tail) == ',' then Rest(tail) else tail)
  {
    hide Decimal, ParseBounds;
    if r.lo == r.hi { ReadOne(r.lo, tail, nmaskbits); } else { ReadTwo(r.lo, r.hi, tail, nmaskbits); }
  }

  /** The parser goes on behind a comma. */
  lemma {:induction false} ParseOne(r: Range, rest: string, before: seq<Range>, nmaskbits: nat)
    requires r.lo <= r.hi < nmaskbits <= UINT && IsDigit(Head(rest))
    ensures ParseFrom(RangeText(r) + ([','] + rest), before, nmaskbits) == ParseFrom(rest, before + [r], nmaskbits)
  {
    hide RangeText, ParseItem;
    ReadRange(r, [','] + rest, nmaskbits);
    assert Rest([','] + rest) == rest;
  }

  lemma {:induction false} ParseBack(ranges: seq<Range>, before: seq<Range>, tail: string, nmaskbits: nat)
    requires ranges != [] && Proper(ranges, nmaskbits) && nmaskbits <= UINT
    requires tail == "" || tail[0] == '\n'
    ensures ParseFrom(Joined(ranges) + tail, before, nmaskbits) == Accepted(before + ranges)
    decreases |ranges|
  {
    hide RangeText, ParseFrom, Proper, Joined;
    ProperParts(ranges, nmaskbits);
    JoinedParts(ranges, tail);
    RestAfter(before, ranges);
    if |ranges| == 1 {
      ParseLast(ranges[0], tail, before, nmaskbits);
    } else {
      JoinedHead(ranges[1..], tail);
      ParseOne(ranges[0], Joined(ranges[1..]) + tail, before, nmaskbits);
      ParseBack(ranges[1..], before + [ranges[0]], tail, nmaskbits);
    }
  }

  lemma JoinedParts(ranges: seq<Range>, tail: string)
    requires ranges != []
    ensures Joined(ranges) + tail ==
            RangeText(ranges[0]) + if |ranges| == 1 then tail else [','] + (Joined(ranges[1..]) + tail)
  {
    hide RangeText;
  }

  lemma RestAfter(before: seq<Range>, ranges: seq<Range>)
    requires ranges != []
    ensures before + [ranges[0]] + ranges[1..] == before + ranges
    ensures |ranges| == 1 ==> before + [ranges[0]] == before + ranges
  {
  }

  lemma ProperParts(ranges: seq<Range>, nmaskbits: nat)
    requires ranges != [] && Proper(ranges, nmaskbits)
    ensures ranges[0].lo <= ranges[0].hi < nmaskbits && Proper(ranges[1..], nmaskbits)
  {
  }

  lemma ParseLast(r: Range, tail: string, before: seq<Range>, nmaskbits: nat)
    requires r.lo <= r.hi < nmaskbits <= UINT && (tail == "" || tail[0] == '\n')
    ensures ParseFrom(RangeText(r) + tail, before, nmaskbits) == Accepted(before + [r])
  {
    hide RangeText, ParseItem;
    ReadRange(r, tail, nmaskbits);
  }

  lemma {:induction false} JoinedHead(ranges: seq<Range>, tail: string)
    requires ranges != []
    ensures IsDigit(Head(Joined(ranges) + tail))
  {
    DecimalDigits(ranges[0].lo);
  }

  /**
   * Parsing a printed bitmap: an empty one is refused with EINVAL, every other one is accepted and gives exactly its
   * bits back.
   */
  lemma {:induction false} RoundTrip(bm: seq<bv64>, nmaskbits: nat, back: seq<bv64>)
    requires BitsToLongs(nmaskbits) <= |bm| && nmaskbits < 0x8000_0000
    ensures var parsed := ParseText(FullText(bm, nmaskbits), nmaskbits);
            && (parsed.Accepted? <==> exists p: nat {:trigger BitAt(bm, p)} :: p < nmaskbits && BitAt(bm, p))
            && (parsed.Rejected? ==> parsed.error == EInval)
            && (parsed.Accepted? && Holds(back, parsed.ranges, nmaskbits) ==>
                  forall p: nat {:trigger BitAt(back, p)} | p < 64 * BitsToLongs(nmaskbits) ::
                    BitAt(back, p) <==> p < nmaskbits && BitAt(bm, p))
  {
    hide BitAt, Runs, Covers, Joined, ParseFrom;
    var runs := Runs(bm, nmaskbits, 0);
    RunsProper(bm, nmaskbits, 0);
    forall p: nat | true ensures Covers(runs, p) <==> p < nmaskbits && BitAt(bm, p) {
      RunsCover(bm, nmaskbits, 0, p);
    }
    if runs == [] {
      NoRanges();
      EmptyRefused(nmaskbits);
      forall p: nat | true ensures !Covers(runs, p) { CoversNone(p); }
    } else {
      assert Joined(runs) + "" == Joined(runs);
      ParseBack(runs, [], "", nmaskbits);
      assert [] + runs == runs;
      FirstCovered(runs, nmaskbits);
      assert Covers(runs, runs[0].lo);
    }
  }

  lemma EmptyRefused(nmaskbits: nat)
    ensures ParseText("", nmaskbits) == Rejected(EInval)
  {
  }

  lemma FirstCovered(ranges: seq<Range>, nmaskbits: nat)
    requires ranges != [] && Proper(ranges, nmaskbits)
    ensures Covers(ranges, ranges[0].lo)
  {
    assert Within(ranges[0], ranges[0].lo);
  }
}
