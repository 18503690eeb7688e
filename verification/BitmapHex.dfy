/** bitmap_scnprintf and __bitmap_parse: hexadecimal text in comma-separated chunks of 32 bits. */
module BitmapHex {
  import opened Words
  import Shift = BitmapShift

  const CHUNKSZ: nat := 32

  datatype Error = EInval | EOverflow | EFault

  // ---------- bits that a value may have ----------

  /** No bit of v is at n or above. */
  ghost predicate FitsIn(v: bv64, n: nat) {
    forall i {:trigger Bit(v, i)} | n <= i < 64 :: !Bit(v, i)
  }

  /** fls: 1 + the number of the highest set bit, 0 for no bit. */
  function Fls(v: bv64): nat
    decreases v
  {
    if v == 0 then 0 else (HalfSmaller(v); 1 + Fls(Half(v)))
  }

  lemma HalfSmaller(v: bv64)
    requires v != 0
    ensures Half(v) < v
  {
  }

  lemma {:induction false} BelowFls(v: bv64, i: nat)
    requires Bit(v, i)
    ensures i < Fls(v)
    decreases i
  {
    hide Bit, Half;
    if v == 0 {
      BitZero(i);
    } else if i > 0 {
      BitShrOne(v, i - 1);
      BelowFls(Half(v), i - 1);
    }
  }

  lemma {:induction false} FlsFits(v: bv64, n: nat)
    requires FitsIn(v, n)
    ensures Fls(v) <= n
    decreases n
  {
    hide Bit, Half;
    if v != 0 {
      if n == 0 {
        var i := SomeBit(v);
        assert false;
      }
      forall i | n - 1 <= i < 64 ensures !Bit(Half(v), i) {
        BitShrOne(v, i);
        if Bit(v, i + 1) { InRange(v, i + 1); }
      }
      FlsFits(Half(v), n - 1);
    }
  }

  // ---------- digits ----------

  function HexChar(v: bv64): (c: char)
    ensures IsXDigit(c) && !IsSpace(c)
  {
    if v == 0 then '0' else if v == 1 then '1' else if v == 2 then '2' else if v == 3 then '3'
    else if v == 4 then '4' else if v == 5 then '5' else if v == 6 then '6' else if v == 7 then '7'
    else if v == 8 then '8' else if v == 9 then '9' else if v == 10 then 'a' else if v == 11 then 'b'
    else if v == 12 then 'c' else if v == 13 then 'd' else if v == 14 then 'e' else 'f'
  }

  predicate IsXDigit(c: char) {
    '0' <= c <= '9' || 'a' <= c <= 'f' || 'A' <= c <= 'F'
  }

  /** isspace of the kernel's ctype table */
  predicate IsSpace(c: char) {
    c == ' ' || '\t' <= c <= '\r' || c == '\U{a0}'
  }

  function Unhex(c: char): (v: bv64)
    ensures v < 16
  {
    if c == '0' then 0 else if c == '1' then 1 else if c == '2' then 2 else if c == '3' then 3
    else if c == '4' then 4 else if c == '5' then 5 else if c == '6' then 6 else if c == '7' then 7
    else if c == '8' then 8 else if c == '9' then 9
    else if c == 'a' || c == 'A' then 10 else if c == 'b' || c == 'B' then 11
    else if c == 'c' || c == 'C' then 12 else if c == 'd' || c == 'D' then 13
    else if c == 'e' || c == 'E' then 14 else 15
  }

  lemma UnhexChar(v: bv64)
    requires v < 16
    ensures Unhex(HexChar(v)) == v
  {
  }

  /** The value of every digit, capital ones too. */
  lemma DigitValues()
    ensures Unhex('0') == 0 && Unhex('1') == 1 && Unhex('2') == 2 && Unhex('3') == 3 && Unhex('4') == 4
    ensures Unhex('5') == 5 && Unhex('6') == 6 && Unhex('7') == 7 && Unhex('8') == 8 && Unhex('9') == 9
  {
  }

  lemma LetterValues()
    ensures Unhex('a') == 10 && Unhex('b') == 11 && Unhex('c') == 12
    ensures Unhex('d') == 13 && Unhex('e') == 14 && Unhex('f') == 15
  {
  }

  lemma CapitalValues()
    ensures Unhex('A') == 10 && Unhex('B') == 11 && Unhex('C') == 12
    ensures Unhex('D') == 13 && Unhex('E') == 14 && Unhex('F') == 15
  {
  }

  /** The digit that is printed for every value. */
  lemma PrintedDigits()
    ensures HexChar(0) == '0' && HexChar(1) == '1' && HexChar(2) == '2' && HexChar(3) == '3'
    ensures HexChar(4) == '4' && HexChar(5) == '5' && HexChar(6) == '6' && HexChar(7) == '7'
    ensures HexChar(8) == '8' && HexChar(9) == '9' && HexChar(10) == 'a' && HexChar(11) == 'b'
    ensures HexChar(12) == 'c' && HexChar(13) == 'd' && HexChar(14) == 'e' && HexChar(15) == 'f'
  {
  }

  function Nibble(v: bv64): bv64 {
    And(v, 15)
  }

  lemma NibbleSmall(v: bv64)
    ensures Nibble(v) < 16
  {
  }

  lemma SmallNibble(v: bv64)
    requires v < 16
    ensures v == Nibble(v)
  {
  }

  lemma {:induction false} LowMask()
    ensures Below(Shl(1, 4)) == 15
  {
    assert Shl(1, 1) == 2 && Shl(1, 2) == 4 && Shl(1, 3) == 8;
  }

  lemma {:induction false} NibbleBit(v: bv64, i: nat)
    requires i < 64
    ensures Bit(Nibble(v), i) <==> i < 4 && Bit(v, i)
  {
    hide Bit, And, Below, Shl;
    LowMask();
    BitMask(4, i);
    BitAnd(v, 15, i);
  }

  /** printf's "%0*lx": at least width digits, and more where the value needs them. */
  function HexText(v: bv64, width: nat): string
    decreases width + Fls(v)
  {
    if width == 0 && v == 0 then ""
    else
      FewerBits(v, 4);
      HexText(Shr(v, 4), if width > 0 then width - 1 else 0) + [HexChar(Nibble(v))]
  }

  lemma {:induction false} FewerBits(v: bv64, n: nat)
    ensures Fls(Shr(v, n)) <= Fls(v)
    ensures v != 0 && n > 0 ==> Fls(Shr(v, n)) < Fls(v)
  {
    hide Half;
    if n > 0 { FewerBits(v, n - 1); }
    if n > 0 { HalfOfNone(); }
  }

  lemma HalfOfNone()
    ensures Half(0) == 0
  {
  }

  // ---------- printing ----------

  function Chunks(nmaskbits: nat): nat {
    (nmaskbits + 31) / 32
  }

  /** Size in bits of chunk c; only the top one may be partial. */
  function ChunkSize(nmaskbits: nat, c: nat): nat {
    if c + 1 == Chunks(nmaskbits) && nmaskbits % 32 > 0 then nmaskbits % 32 else 32
  }

  function ChunkValue(bm: seq<bv64>, nmaskbits: nat, c: nat): bv64
    requires c < Chunks(nmaskbits) && BitsToLongs(nmaskbits) <= |bm|
  {
    And(Shr(bm[32 * c / 64], 32 * c % 64), Below(Shl(1, ChunkSize(nmaskbits, c))))
  }

  /** The text of the lowest c chunks, highest chunk first. */
  function Text(bm: seq<bv64>, nmaskbits: nat, c: nat): string
    requires c <= Chunks(nmaskbits) && BitsToLongs(nmaskbits) <= |bm|
  {
    if c == 0 then ""
    else HexText(ChunkValue(bm, nmaskbits, c - 1), (ChunkSize(nmaskbits, c - 1) + 3) / 4) +
         (if c > 1 then "," else "") + Text(bm, nmaskbits, c - 1)
  }

  function FullText(bm: seq<bv64>, nmaskbits: nat): string
    requires BitsToLongs(nmaskbits) <= |bm|
  {
    Text(bm, nmaskbits, Chunks(nmaskbits))
  }

  /** What fits into a buffer of buflen bytes that ends with a NUL. */
  function Fitting(text: string, buflen: nat): string {
    if |text| < buflen then text else if buflen == 0 then "" else text[..buflen - 1]
  }

  /** One scnprintf at the end of what is already in the buffer. */
  lemma FittingAppend(done: string, more: string, buflen: nat)
    ensures Fitting(Fitting(done, buflen) + more, buflen) == Fitting(done + more, buflen)
  {
  }

  lemma FittingNone(buflen: nat)
    ensures Fitting("", buflen) == ""
  {
  }

  /** What scnprintf does at the end of buf, and its result: the number of characters that it has put there. */
  method Scnprintf(buf: string, text: string, buflen: nat) returns (more: string, n: nat)
    requires buf == Fitting(buf, buflen)
    ensures more == Fitting(buf + text, buflen) && |more| == |buf| + n
  {
    more := Fitting(buf + text, buflen);
    n := |more| - |buf|;
  }

  lemma FittingTwice(text: string, buflen: nat)
    ensures Fitting(Fitting(text, buflen), buflen) == Fitting(text, buflen)
  {
  }

  /** The length of the whole text comes back exactly if it has fitted into the buffer. */
  lemma FittingLength(text: string, buflen: nat)
    ensures |Fitting(text, buflen)| == |text| <==> |text| < buflen || text == ""
    ensures |Fitting(text, buflen)| <= |text|
  {
  }

  /** The chunk at bit i */
  method ReadValue(bm: array<bv64>, i: nat, chunksz: nat, nmaskbits: nat, ghost c: nat) returns (val: bv64)
    requires BitsToLongs(nmaskbits) <= bm.Length && c < Chunks(nmaskbits)
    requires i == 32 * c && chunksz == ChunkSize(nmaskbits, c)
    ensures val == ChunkValue(bm[..], nmaskbits, c)
  {
    hide Shr, Shl, And, Below;
    var chunkmask := Below(Shl(1, chunksz));
    var word, bit := i / BITS_PER_LONG, i % BITS_PER_LONG;
    val := And(Shr(bm[word], bit), chunkmask);
  }

  /** bitmap_scnprintf; buf is the text in the buffer before its terminating NUL. */
  method Print(bm: array<bv64>, nmaskbits: nat, buflen: nat) returns (buf: string, len: nat)
    requires BitsToLongs(nmaskbits) <= bm.Length
    ensures buf == Fitting(FullText(bm[..], nmaskbits), buflen) && len == |buf|
  {
    hide Shl, Below, HexText, ChunkValue, Printing, Fitting, FullText;
    ghost var bits := bm[..];
    buf, len := "", 0;
    FittingNone(buflen);
    var sep := "";
    var chunksz := nmaskbits % 32;
    if chunksz == 0 { chunksz := CHUNKSZ; }
    ghost var c, done := Chunks(nmaskbits), "";
    StartPrinting(bits, nmaskbits);
    var i: int := 32 * Chunks(nmaskbits) - CHUNKSZ;
    while i >= 0
      invariant 0 <= c <= Chunks(nmaskbits) && i == 32 * c - CHUNKSZ
      invariant c > 0 ==> chunksz == ChunkSize(nmaskbits, c - 1)
      invariant Printing(bits, nmaskbits, c, done, sep)
      invariant buf == Fitting(done, buflen) && len == |buf|
    {
      var val := ReadValue(bm, i, chunksz, nmaskbits, c - 1);
      var text := sep + HexText(val, (chunksz + 3) / 4);
      FittingAppend(done, text, buflen);
      FittingTwice(done, buflen);
      var n;
      buf, n := Scnprintf(buf, text, buflen);
      len := len + n;
      PrintStep(bits, nmaskbits, c, done, sep, text);
      done := done + text;
      chunksz := CHUNKSZ;
      sep := ",";
      i := i - CHUNKSZ;
      c := c - 1;
    }
    DonePrinting(bits, nmaskbits, done, sep);
  }

  /** The chunks from c on are printed, and sep goes before the next one. */
  ghost predicate Printing(bm: seq<bv64>, nmaskbits: nat, c: nat, done: string, sep: string) {
    && BitsToLongs(nmaskbits) <= |bm| && c <= Chunks(nmaskbits)
    && sep == (if c < Chunks(nmaskbits) then "," else "")
    && done + (if c > 0 then sep else "") + Text(bm, nmaskbits, c) == FullText(bm, nmaskbits)
  }

  lemma StartPrinting(bm: seq<bv64>, nmaskbits: nat)
    requires BitsToLongs(nmaskbits) <= |bm|
    ensures Printing(bm, nmaskbits, Chunks(nmaskbits), "", "")
  {
    hide Text;
    assert "" + "" + FullText(bm, nmaskbits) == FullText(bm, nmaskbits);
  }

  lemma PrintStep(bm: seq<bv64>, nmaskbits: nat, c: nat, done: string, sep: string, text: string)
    requires c > 0 && Printing(bm, nmaskbits, c, done, sep)
    requires text == sep + HexText(ChunkValue(bm, nmaskbits, c - 1), (ChunkSize(nmaskbits, c - 1) + 3) / 4)
    ensures Printing(bm, nmaskbits, c - 1, done + text, ",")
  {
    hide ChunkValue, HexText, FullText;
    var rest := (if c > 1 then "," else "") + Text(bm, nmaskbits, c - 1);
    assert done + sep + Text(bm, nmaskbits, c) == done + text + rest;
    assert done + text + rest == done + text + (if c > 1 then "," else "") + Text(bm, nmaskbits, c - 1);
  }

  lemma DonePrinting(bm: seq<bv64>, nmaskbits: nat, done: string, sep: string)
    requires Printing(bm, nmaskbits, 0, done, sep)
    ensures done == FullText(bm, nmaskbits)
  {
    hide FullText;
    assert done + "" + "" == done;
  }

  // ---------- what the text looks like ----------

  /** Digit i from the right is that of bits 4i to 4i + 3. */
  lemma {:induction false} HexTextDigit(v: bv64, width: nat, i: nat, b: nat)
    requires FitsIn(v, 4 * width) && i < width && b < 4 && width <= 8
    ensures |HexText(v, width)| == width
    ensures var c := HexText(v, width)[width - 1 - i]; IsXDigit(c) && c == HexChar(Unhex(c))
    ensures Bit(Unhex(HexText(v, width)[width - 1 - i]), b) <==> Bit(v, 4 * i + b)
    decreases width
  {
    hide Bit, Shr, Nibble, HexChar, Unhex, HexText, FitsIn, IsXDigit;
    HexTextStep(v, width);
    PrintedNibble(v);
    ShiftedFits(v, 4 * width);
    if width == 1 {
      FitsNothing(Shr(v, 4));
    } else {
      HexTextDigit(Shr(v, 4), width - 1, if i > 0 then i - 1 else 0, b);
    }
    if i > 0 {
      BitShr(v, 4, 4 * (i - 1) + b);
    } else {
      NibbleBit(v, b);
    }
  }

  lemma HexTextStep(v: bv64, width: nat)
    requires width > 0
    ensures HexText(v, width) == HexText(Shr(v, 4), width - 1) + [HexChar(Nibble(v))]
    ensures HexText(0, 0) == ""
  {
    hide Shr, Nibble, HexChar;
    FewerBits(v, 4);
  }

  lemma PrintedNibble(v: bv64)
    ensures var c := HexChar(Nibble(v)); IsXDigit(c) && Unhex(c) == Nibble(v)
  {
    NibbleSmall(v);
    hide Nibble, Unhex;
    UnhexChar(Nibble(v));
  }

  function Digits(nmaskbits: nat): nat {
    (nmaskbits + 3) / 4
  }

  lemma ChunkDigits(nmaskbits: nat, c: nat)
    requires c < Chunks(nmaskbits)
    ensures var width := (ChunkSize(nmaskbits, c) + 3) / 4;
            && 0 < width <= 8
            && if c + 1 == Chunks(nmaskbits) then 8 * c + width == Digits(nmaskbits) else width == 8
  {
    assert nmaskbits == 32 * (nmaskbits / 32) + nmaskbits % 32;
  }

  lemma {:induction false} TextLength(bm: seq<bv64>, nmaskbits: nat, c: nat)
    requires 0 < c <= Chunks(nmaskbits) && BitsToLongs(nmaskbits) <= |bm|
    ensures |Text(bm, nmaskbits, c)| == 9 * (c - 1) + (ChunkSize(nmaskbits, c - 1) + 3) / 4
  {
    hide ChunkValue, ChunkSize, HexText;
    WidthFits(bm, nmaskbits, c - 1);
    HexTextDigit(ChunkValue(bm, nmaskbits, c - 1), (ChunkSize(nmaskbits, c - 1) + 3) / 4, 0, 0);
    if c > 1 {
      TextLength(bm, nmaskbits, c - 1);
      ChunkDigits(nmaskbits, c - 2);
    }
  }

  /** The digit or the comma at this place from the right of the lowest c chunks. */
  lemma {:induction false} TextAt(bm: seq<bv64>, nmaskbits: nat, c: nat, q: nat, b: nat)
    requires 0 < c <= Chunks(nmaskbits) && BitsToLongs(nmaskbits) <= |bm| && b < 4
    requires q < 8 * (c - 1) + (ChunkSize(nmaskbits, c - 1) + 3) / 4
    ensures var t := Text(bm, nmaskbits, c);
            && q + q / 8 < |t|
            && var d := t[|t| - 1 - q - q / 8];
               && IsXDigit(d) && d == HexChar(Unhex(d))
               && (Bit(Unhex(d), b) <==> 4 * q + b < nmaskbits && BitAt(bm, 4 * q + b))
               && (q % 8 == 0 && q > 0 ==> t[|t| - q - q / 8] == ',')
  {
    hide Bit, BitAt, ChunkValue, ChunkSize, HexText, HexChar, Unhex, IsXDigit, BitsToLongs, FitsIn;
    var v, width, t := ChunkValue(bm, nmaskbits, c - 1), (ChunkSize(nmaskbits, c - 1) + 3) / 4, Text(bm, nmaskbits, c);
    WidthFits(bm, nmaskbits, c - 1);
    HexTextDigit(v, width, 0, 0);
    TextLength(bm, nmaskbits, c);
    var low := if c > 1 then Text(bm, nmaskbits, c - 1) else "";
    if c > 1 {
      TextLength(bm, nmaskbits, c - 1);
      ChunkDigits(nmaskbits, c - 2);
    }
    if q < 8 * (c - 1) {
      TextAt(bm, nmaskbits, c - 1, q, b);
      assert t == (HexText(v, width) + ",") + low;
    } else {
      var r := q - 8 * (c - 1);
      HexTextDigit(v, width, r, b);
      InChunk(q, c - 1, r, b);
      ValueBit(bm, nmaskbits, c - 1, 4 * r + b);
      assert t[width - 1 - r] == HexText(v, width)[width - 1 - r];
    }
  }

  lemma InChunk(q: nat, c: nat, r: nat, b: nat)
    requires q == 8 * c + r && r < 8 && b < 4
    ensures q / 8 == c && q % 8 == r && 32 * c + (4 * r + b) == 4 * q + b && 4 * r + b < 32
  {
  }

  /**
   * The printed text: one lower-case digit for every four bits, the lowest ones last, and a comma before every eight
   * digits from the right; no bit from nmaskbits on is printed.
   */
  lemma {:induction false} TextIs(bm: seq<bv64>, nmaskbits: nat, q: nat, b: nat)
    requires BitsToLongs(nmaskbits) <= |bm| && q < (nmaskbits + 3) / 4 && b < 4
    ensures var t := FullText(bm, nmaskbits);
            && |t| == (nmaskbits + 3) / 4 + ((nmaskbits + 3) / 4 - 1) / 8
            && q + q / 8 < |t|
            && var d := t[|t| - 1 - q - q / 8];
               && IsXDigit(d) && d == HexChar(Unhex(d))
               && (Bit(Unhex(d), b) <==> 4 * q + b < nmaskbits && BitAt(bm, 4 * q + b))
               && (q % 8 == 0 && q > 0 ==> t[|t| - q - q / 8] == ',')
  {
    hide Text, Bit, BitAt, ChunkSize, IsXDigit, HexChar, Unhex, BitsToLongs;
    var c := Chunks(nmaskbits);
    assert c > 0;
    ChunkDigits(nmaskbits, c - 1);
    TextLength(bm, nmaskbits, c);
    TextAt(bm, nmaskbits, c, q, b);
  }

  // ---------- parsing ----------

  /** What the inner loop of __bitmap_parse comes back with. */
  datatype Scan =
    | Got(chunk: bv64, ndigits: nat, totaldigits: nat, c: char, rest: string)
    | Refused(error: Error)

  /** The mask of the four top bits of a 32-bit chunk, as the source writes it. */
  function NoRoom(): bv64 {
    Not(Below(Shl(1, CHUNKSZ - 4)))
  }

  /** The readable text of the buffer is followed by missing bytes of a user buffer that cannot be read. */
  function GetChunk(buf: string, missing: nat, c: char, chunk: bv64, ndigits: nat, totaldigits: nat): (s: Scan)
    ensures s.Got? ==> |s.rest| <= |buf| && (s.ndigits > ndigits ==> |s.rest| < |buf|)
    decreases |buf|
  {
    if buf == "" then if missing > 0 then Refused(EFault) else Got(chunk, ndigits, totaldigits, c, "")
    else
      var d, rest := buf[0], buf[1..];
      if IsSpace(d) then GetChunk(rest, missing, d, chunk, ndigits, totaldigits)
      else if totaldigits > 0 && d != '\0' && IsSpace(c) then Refused(EInval)
      else if d == '\0' || d == ',' then Got(chunk, ndigits, totaldigits, d, rest)
      else if !IsXDigit(d) then Refused(EInval)
      else if Hit(chunk, NoRoom()) then Refused(EOverflow)
      else GetChunk(rest, missing, d, Or(Shl(chunk, 4), Unhex(d)), ndigits + 1, totaldigits + 1)
  }

  datatype Parsed = Accepted(chunks: seq<bv64>) | Rejected(error: Error)

  /** The source's nbits: how many bits the accepted chunks need. */
  function Needed(chunks: seq<bv64>): nat {
    if chunks == [] then 0 else Fls(chunks[0]) + 32 * (|chunks| - 1)
  }

  /** The outer loop of __bitmap_parse, from the point where chunks were taken over into the bitmap. */
  function ParseFrom(buf: string, missing: nat, c: char, totaldigits: nat, chunks: seq<bv64>, nmaskbits: nat): Parsed
    decreases |buf|
  {
    match GetChunk(buf, missing, c, 0, 0, totaldigits)
    case Refused(error) => Rejected(error)
    case Got(chunk, ndigits, total, d, rest) =>
      if ndigits == 0 then Rejected(EInval)
      else
        var taken := if chunks == [] && chunk == 0 then chunks else chunks + [chunk];
        if Needed(taken) > nmaskbits then Rejected(EOverflow)
        else if (rest != "" || missing > 0) && d == ',' then ParseFrom(rest, missing, d, total, taken, nmaskbits)
        else Accepted(taken)
  }

  function ParseText(buf: string, missing: nat, nmaskbits: nat): Parsed {
    ParseFrom(buf, missing, '\0', 0, [], nmaskbits)
  }

  /** Bit p of the bitmap that the chunks, highest first, spell. */
  predicate Spelled(chunks: seq<bv64>, p: nat) {
    p / 32 < |chunks| && Bit(chunks[|chunks| - 1 - p / 32], p % 32)
  }

  ghost predicate Holds(bm: seq<bv64>, chunks: seq<bv64>, nmaskbits: nat) {
    BitsToLongs(nmaskbits) <= |bm| &&
    forall p: nat {:trigger BitAt(bm, p)} | p < 64 * BitsToLongs(nmaskbits) :: BitAt(bm, p) <==> Spelled(chunks, p)
  }

  // ---------- the parser is a shift register of chunks ----------

  lemma {:induction false} RoomLeft(chunk: bv64)
    requires FitsIn(chunk, 28)
    ensures !Hit(chunk, NoRoom())
  {
    hide Bit, Not, Below, Shl, And;
    if Hit(chunk, NoRoom()) {
      HitMeans(chunk, NoRoom());
      var i := SomeBit(And(chunk, NoRoom()));
      BitAnd(chunk, NoRoom(), i);
      BitNot(Below(Shl(1, 28)), i);
      BitMask(28, i);
    }
  }

  lemma {:induction false} NoRoomMeans(chunk: bv64)
    requires !Hit(chunk, NoRoom())
    ensures FitsIn(chunk, 28)
  {
    hide Bit, Not, Below, Shl, And, Hit;
    forall i | 28 <= i < 64 ensures !Bit(chunk, i) {
      HitMeans(chunk, NoRoom());
      BitZero(i);
      BitAnd(chunk, NoRoom(), i);
      BitNot(Below(Shl(1, 28)), i);
      BitMask(28, i);
    }
  }

  lemma {:induction false} AddDigit(chunk: bv64, digit: bv64, n: nat)
    requires FitsIn(chunk, n) && digit < 16
    ensures FitsIn(Or(Shl(chunk, 4), digit), n + 4)
  {
    hide Bit, Or, Shl, Nibble;
    SmallNibble(digit);
    forall i | n + 4 <= i < 64 ensures !Bit(Or(Shl(chunk, 4), digit), i) {
      BitOr(Shl(chunk, 4), digit, i);
      BitShl(chunk, 4, i);
      NibbleBit(digit, i);
    }
  }

  /** No chunk that the inner loop accepts has more than 32 bits. */
  lemma {:induction false} ChunkFits(buf: string, missing: nat, c: char, chunk: bv64, ndigits: nat,
                                     totaldigits: nat)
    requires FitsIn(chunk, 32)
    ensures var s := GetChunk(buf, missing, c, chunk, ndigits, totaldigits); s.Got? ==> FitsIn(s.chunk, 32)
    decreases |buf|
  {
    hide FitsIn, Or, Shl, Hit, NoRoom, IsSpace, IsXDigit;
    if buf != "" {
      var d, rest := buf[0], buf[1..];
      if IsSpace(d) {
        ChunkFits(rest, missing, d, chunk, ndigits, totaldigits);
      } else if !Hit(chunk, NoRoom()) {
        NoRoomMeans(chunk);
        AddDigit(chunk, Unhex(d), 28);
        ChunkFits(rest, missing, d, Or(Shl(chunk, 4), Unhex(d)), ndigits + 1, totaldigits + 1);
      }
    }
  }

  lemma {:induction false} ZeroFits()
    ensures FitsIn(0, 32)
  {
    hide Bit;
    forall i | 32 <= i < 64 ensures !Bit(0, i) { BitZero(i); }
  }

  /** Everything the chunks spell lies below the number of bits counted for them. */
  lemma {:induction false} SpelledBelow(chunks: seq<bv64>, p: nat)
    requires Spelled(chunks, p)
    ensures p < Needed(chunks)
  {
    hide Bit, Fls;
    if p / 32 == |chunks| - 1 {
      BelowFls(chunks[0], p % 32);
    } else {
      assert p / 32 + 1 <= |chunks| - 1;
    }
  }

  /** Shifting the bitmap by a chunk and putting the next one in spells the longer list. */
  lemma {:induction false} TakeChunk(was: seq<bv64>, shifted: seq<bv64>, bm: seq<bv64>, chunks: seq<bv64>,
                                     chunk: bv64, nmaskbits: nat)
    requires nmaskbits > 0 && |shifted| == |bm| > 0 && FitsIn(chunk, 32)
    requires Needed(chunks + [chunk]) <= nmaskbits
    requires Holds(was, chunks, nmaskbits) && Shift.ShiftedLeft(shifted, was, 32, nmaskbits)
    requires bm[0] == Or(shifted[0], chunk) && forall k | 0 < k < |bm| :: bm[k] == shifted[k]
    ensures Holds(bm, chunks + [chunk], nmaskbits)
  {
    hide Bit, Or, Needed;
    var more := chunks + [chunk];
    forall p: nat | p < 64 * BitsToLongs(nmaskbits) ensures BitAt(bm, p) <==> Spelled(more, p) {
      if p < 64 { BitOr(shifted[0], chunk, p); }
      assert BitAt(shifted, p) <==> 32 <= p < nmaskbits && BitAt(was, p - 32);
      if p >= 32 {
        assert (p - 32) / 32 == p / 32 - 1 && (p - 32) % 32 == p % 32;
        assert Spelled(more, p) <==> Spelled(chunks, p - 32);
        if Spelled(more, p) { SpelledBelow(more, p); }
      }
    }
  }

  /** The inner loop of __bitmap_parse; error is 0 if it comes back with a chunk. */
  method ReadChunk(buf: string, missing: nat, start: nat, c0: char, total0: nat)
    returns (error: int, chunk: bv64, ndigits: nat, totaldigits: nat, c: char, pos: nat)
    requires start <= |buf|
    ensures start <= pos <= |buf| && error in {0, -22, -75, -14} && (ndigits > 0 ==> pos > start)
    ensures GetChunk(buf[start..], missing, c0, 0, 0, total0) ==
            if error == 0 then Got(chunk, ndigits, totaldigits, c, buf[pos..])
            else Refused(if error == -22 then EInval else if error == -75 then EOverflow else EFault)
  {
    hide Or, Shl, Hit, NoRoom, IsSpace, IsXDigit;
    error, chunk, ndigits, totaldigits, c, pos := 0, 0, 0, total0, c0, start;
    ghost var whole := GetChunk(buf[start..], missing, c0, 0, 0, total0);
    while pos < |buf| + missing
      invariant start <= pos <= |buf| && error == 0
      invariant whole == GetChunk(buf[pos..], missing, c, chunk, ndigits, totaldigits)
      invariant ndigits > 0 ==> pos > start
      decreases |buf| - pos
    {
      var oldC := c;
      if pos == |buf| { return -14, chunk, ndigits, totaldigits, c, pos; }
      c := buf[pos];
      assert buf[pos..][1..] == buf[pos + 1..];
      pos := pos + 1;
      if IsSpace(c) { continue; }
      if totaldigits > 0 && c != '\0' && IsSpace(oldC) { return -22, chunk, ndigits, totaldigits, c, pos; }
      if c == '\0' || c == ',' { return; }
      if !IsXDigit(c) { return -22, chunk, ndigits, totaldigits, c, pos; }
      if Hit(chunk, NoRoom()) { return -75, chunk, ndigits, totaldigits, c, pos; }
      chunk := Or(Shl(chunk, 4), Unhex(c));
      ndigits, totaldigits := ndigits + 1, totaldigits + 1;
    }
  }

  /**
   * __bitmap_parse; of a user buffer the last missing bytes cannot be read. On success the bitmap spells the accepted
   * chunks, whatever it held before; all its bits are below nmaskbits.
   */
  method Parse(buf: string, missing: nat, maskp: array<bv64>, nmaskbits: nat) returns (error: int)
    requires 0 < nmaskbits && BitsToLongs(nmaskbits) <= maskp.Length
    modifies maskp
    ensures var parsed := ParseText(buf, missing, nmaskbits);
            if error == 0 then parsed.Accepted? && Holds(maskp[..], parsed.chunks, nmaskbits)
            else parsed == Rejected(if error == -22 then EInval else if error == -75 then EOverflow else EFault)
    ensures error in {0, -22, -75, -14}
  {
    hide Bit, Or, Holds, FitsIn, GetChunk;
    Shift.Clear(maskp, 0, BitsToLongs(nmaskbits));
    ghost var chunks: seq<bv64> := [];
    ZeroHolds(maskp[..], nmaskbits);
    var pos: nat, c: char, totaldigits: nat, nchunks: nat, nbits: nat := 0, '\0', 0, 0, 0;
    assert buf[0..] == buf;
    while true
      invariant pos <= |buf| && nchunks == |chunks| && nbits == Needed(chunks) <= nmaskbits
      invariant Holds(maskp[..], chunks, nmaskbits)
      invariant ParseText(buf, missing, nmaskbits) ==
                ParseFrom(buf[pos..], missing, c, totaldigits, chunks, nmaskbits)
      decreases |buf| - pos
    {
      ZeroFits();
      ChunkFits(buf[pos..], missing, c, 0, 0, totaldigits);
      var chunk, ndigits;
      error, chunk, ndigits, totaldigits, c, pos := ReadChunk(buf, missing, pos, c, totaldigits);
      if error != 0 { return; }
      if ndigits == 0 { return -22; }
      if !(nchunks == 0 && chunk == 0) {
        ghost var was := maskp[..];
        Shift.Left(maskp, maskp, CHUNKSZ, nmaskbits);
        ghost var shifted := maskp[..];
        maskp[0] := Or(maskp[0], chunk);
        nchunks := nchunks + 1;
        nbits := nbits + if nchunks == 1 then Fls(chunk) else CHUNKSZ;
        if nbits > nmaskbits { return -75; }
        TakeChunk(was, shifted, maskp[..], chunks, chunk, nmaskbits);
        chunks := chunks + [chunk];
      }
      if !(pos < |buf| + missing && c == ',') { break; }
    }
  }

  lemma {:induction false} ZeroHolds(bm: seq<bv64>, nmaskbits: nat)
    requires BitsToLongs(nmaskbits) <= |bm| && forall k | 0 <= k < BitsToLongs(nmaskbits) :: bm[k] == 0
    ensures Holds(bm, [], nmaskbits)
  {
    hide Bit;
    forall p: nat | p < 64 * BitsToLongs(nmaskbits) ensures !BitAt(bm, p) { BitZero(p % 64); }
  }

  // ---------- what is read, and what is refused ----------

  predicate HexDigits(ds: string) {
    forall k | 0 <= k < |ds| :: IsXDigit(ds[k])
  }

  function Value(ds: string): bv64 {
    if ds == "" then 0 else Or(Shl(Value(ds[..|ds| - 1]), 4), Unhex(ds[|ds| - 1]))
  }

  lemma {:induction false} ValueFits(ds: string)
    ensures FitsIn(Value(ds), 4 * |ds|)
    decreases |ds|
  {
    hide Bit, Or, Shl, Unhex;
    if ds == "" {
      forall i | 0 <= i < 64 ensures !Bit(0, i) { BitZero(i); }
    } else {
      ValueFits(ds[..|ds| - 1]);
      AddDigit(Value(ds[..|ds| - 1]), Unhex(ds[|ds| - 1]), 4 * (|ds| - 1));
    }
  }

  /** Digit i from the right gives bits 4i to 4i + 3. */
  lemma {:induction false} ValueBit4(ds: string, i: nat, b: nat)
    requires i < |ds| <= 8 && b < 4
    ensures Bit(Value(ds), 4 * i + b) <==> Bit(Unhex(ds[|ds| - 1 - i]), b)
    decreases |ds|
  {
    hide Bit, Or, Shl, Unhex, Nibble;
    var high, digit := Value(ds[..|ds| - 1]), Unhex(ds[|ds| - 1]);
    SmallNibble(digit);
    BitOr(Shl(high, 4), digit, 4 * i + b);
    BitShl(high, 4, 4 * i + b);
    NibbleBit(digit, 4 * i + b);
    if i > 0 { ValueBit4(ds[..|ds| - 1], i - 1, b); }
  }

  /** Up to eight digits, also capital ones and leading zeros, are read as their value. */
  lemma {:induction false} ReadAny(ds: string, tail: string, missing: nat, c: char, totaldigits: nat)
    requires HexDigits(ds) && |ds| <= 8 && !IsSpace(c)
    ensures var c1 := if ds == "" then c else ds[|ds| - 1];
            && !IsSpace(c1)
            && GetChunk(ds + tail, missing, c, 0, 0, totaldigits) ==
               GetChunk(tail, missing, c1, Value(ds), |ds|, totaldigits + |ds|)
    decreases |ds|
  {
    hide Bit, Or, Shl, Hit, NoRoom, IsSpace, IsXDigit, Unhex, GetChunk, FitsIn;
    if ds == "" {
      assert ds + tail == tail;
    } else {
      var init, d := ds[..|ds| - 1], ds[|ds| - 1];
      ReadAny(init, [d] + tail, missing, c, totaldigits);
      assert ds + tail == init + ([d] + tail);
      ValueFits(init);
      LessFits(Value(init), 4 * |init|, 28);
      RoomLeft(Value(init));
      PlainDigit(d);
      var c0 := if init == "" then c else init[|init| - 1];
      TakeDigit(d, tail, missing, c0, Value(init), |init|, totaldigits + |init|);
    }
  }

  lemma TakeDigit(d: char, tail: string, missing: nat, c: char, chunk: bv64, ndigits: nat, totaldigits: nat)
    requires IsXDigit(d) && !IsSpace(c) && !Hit(chunk, NoRoom())
    ensures GetChunk([d] + tail, missing, c, chunk, ndigits, totaldigits) ==
            GetChunk(tail, missing, d, Or(Shl(chunk, 4), Unhex(d)), ndigits + 1, totaldigits + 1)
  {
    hide Or, Shl, Hit, NoRoom, Unhex, IsXDigit, IsSpace;
    PlainDigit(d);
    assert ([d] + tail)[1..] == tail;
  }

  /** No digit where a chunk should be. */
  lemma EmptyChunk(tail: string, missing: nat, c: char, totaldigits: nat, chunks: seq<bv64>, nmaskbits: nat)
    requires !IsSpace(c) && if tail == "" then missing == 0 else tail[0] == ',' || tail[0] == '\0'
    ensures ParseFrom(tail, missing, c, totaldigits, chunks, nmaskbits) == Rejected(EInval)
  {
    hide Fls, Shl, Or, Hit;
    ChunkEnds(tail, missing, c, 0, 0, totaldigits);
  }

  /** A character that is neither a digit nor a space, a comma or NUL. */
  lemma {:induction false} BadCharacter(ds: string, tail: string, missing: nat, c: char, totaldigits: nat,
                                        chunks: seq<bv64>, nmaskbits: nat)
    requires HexDigits(ds) && |ds| <= 8 && !IsSpace(c)
    requires tail != "" && !IsXDigit(tail[0]) && !IsSpace(tail[0]) && tail[0] != ',' && tail[0] != '\0'
    ensures ParseFrom(ds + tail, missing, c, totaldigits, chunks, nmaskbits) == Rejected(EInval)
  {
    hide Fls, Shl, Or, Hit, Value;
    ReadAny(ds, tail, missing, c, totaldigits);
  }

  /** More digits after a space. */
  lemma {:induction false} SpaceInside(ds: string, x: char, tail: string, missing: nat, c: char, totaldigits: nat,
                                       chunks: seq<bv64>, nmaskbits: nat)
    requires HexDigits(ds) && 0 < |ds| <= 8 && !IsSpace(c) && !IsSpace(x) && x != '\0'
    ensures ParseFrom(ds + [' ', x] + tail, missing, c, totaldigits, chunks, nmaskbits) == Rejected(EInval)
  {
    hide Fls, Shl, Or, Hit, Value;
    assert ds + [' ', x] + tail == ds + ([' ', x] + tail);
    ReadAny(ds, [' ', x] + tail, missing, c, totaldigits);
    var c1 := ds[|ds| - 1];
    assert ([' ', x] + tail)[1..] == [x] + tail;
  }

  /** A ninth digit behind one that is not 0, which leaves a 32-bit chunk no room. */
  lemma {:induction false} NinthDigit(ds: string, tail: string, missing: nat, c: char, totaldigits: nat,
                                      chunks: seq<bv64>, nmaskbits: nat)
    requires HexDigits(ds) && |ds| == 8 && Unhex(ds[0]) != 0 && !IsSpace(c)
    requires tail != "" && IsXDigit(tail[0])
    ensures ParseFrom(ds + tail, missing, c, totaldigits, chunks, nmaskbits) == Rejected(EOverflow)
  {
    hide Fls, Shl, Or, Hit, Value, NoRoom, Bit, Unhex;
    ReadAny(ds, tail, missing, c, totaldigits);
    PlainDigit(tail[0]);
    if !Hit(Value(ds), NoRoom()) {
      NoRoomMeans(Value(ds));
      var b := SomeBit(Unhex(ds[0]));
      SmallNibble(Unhex(ds[0]));
      hide Nibble;
      NibbleBit(Unhex(ds[0]), b);
      ValueBit4(ds, 7, b);
      assert false;
    }
  }

  /** The end of what can be read of a user buffer. */
  lemma {:induction false} Unreadable(ds: string, missing: nat, c: char, totaldigits: nat, chunks: seq<bv64>,
                                      nmaskbits: nat)
    requires HexDigits(ds) && |ds| <= 8 && !IsSpace(c) && missing > 0
    ensures ParseFrom(ds, missing, c, totaldigits, chunks, nmaskbits) == Rejected(EFault)
  {
    hide Fls, Shl, Or, Hit, Value;
    ReadAny(ds, "", missing, c, totaldigits);
    assert ds + "" == ds;
  }

  /** A bit at nmaskbits or above in the only chunk. */
  lemma {:induction false} TooManyBits(ds: string, missing: nat, nmaskbits: nat, p: nat)
    requires HexDigits(ds) && 0 < |ds| <= 8 && missing == 0 && nmaskbits <= p && Bit(Value(ds), p)
    ensures ParseText(ds, missing, nmaskbits) == Rejected(EOverflow)
  {
    hide Fls, Shl, Or, Hit, Value, Bit;
    Comma();
    ReadAny(ds, "", missing, '\0', 0);
    assert ds + "" == ds;
    BelowFls(Value(ds), p);
    BitZero(p);
  }

  // ---------- printing and parsing back ----------

  lemma ChunkBits(nmaskbits: nat, c: nat, i: nat)
    requires c < Chunks(nmaskbits)
    ensures 0 < ChunkSize(nmaskbits, c) <= 32
    ensures i < ChunkSize(nmaskbits, c) <==> i < 32 && 32 * c + i < nmaskbits
  {
  }

  lemma HalfWord(c: nat, i: nat)
    requires i < 32
    ensures (32 * c + i) / 64 == 32 * c / 64 && (32 * c + i) % 64 == 32 * c % 64 + i < 64
  {
  }

  lemma {:induction false} ValueBit(bm: seq<bv64>, nmaskbits: nat, c: nat, i: nat)
    requires c < Chunks(nmaskbits) && BitsToLongs(nmaskbits) <= |bm| && i < 64
    ensures Bit(ChunkValue(bm, nmaskbits, c), i) <==> i < 32 && 32 * c + i < nmaskbits && BitAt(bm, 32 * c + i)
  {
    hide Bit, Shr, Shl, And, Below, ChunkSize;
    var w, b, size := bm[32 * c / 64], 32 * c % 64, ChunkSize(nmaskbits, c);
    ChunkBits(nmaskbits, c, i);
    BitAnd(Shr(w, b), Below(Shl(1, size)), i);
    BitMask(size, i);
    BitShr(w, b, i);
    if i < 32 { HalfWord(c, i); }
  }

  /** The digits that printf writes are read back as the value they came from. */
  lemma {:induction false} ReadDigits(v: bv64, width: nat, tail: string, missing: nat, c: char,
                                      totaldigits: nat)
    requires width <= 8 && FitsIn(v, 4 * width) && !IsSpace(c)
    ensures var c1 := if width == 0 then c else HexChar(Nibble(v));
            GetChunk(HexText(v, width) + tail, missing, c, 0, 0, totaldigits) ==
            GetChunk(tail, missing, c1, v, width, totaldigits + width)
    decreases width
  {
    hide Bit, Or, Shl, Shr, Hit, NoRoom, IsSpace, IsXDigit, Nibble, HexChar, Unhex;
    if width == 0 {
      FitsNothing(v);
      assert HexText(v, width) + tail == tail;
    } else {
      var high, digit := Shr(v, 4), Nibble(v);
      ShiftedFits(v, 4 * width);
      ReadDigits(high, width - 1, [HexChar(digit)] + tail, missing, c, totaldigits);
      assert HexText(v, width) + tail == HexText(high, width - 1) + ([HexChar(digit)] + tail);
      LessFits(high, 4 * (width - 1), 28);
      RoomLeft(high);
      NibbleSmall(v);
      UnhexChar(digit);
      Rejoin(v);
      PlainDigit(HexChar(digit));
      assert ([HexChar(digit)] + tail)[1..] == tail;
    }
  }

  lemma PlainDigit(c: char)
    requires IsXDigit(c)
    ensures c != '\0' && c != ',' && !IsSpace(c)
  {
  }

  lemma {:induction false} FitsNothing(v: bv64)
    requires FitsIn(v, 0)
    ensures v == 0
  {
    hide Bit;
    if v != 0 { var i := SomeBit(v); }
  }

  lemma {:induction false} LessFits(v: bv64, n: nat, m: nat)
    requires FitsIn(v, n) && n <= m
    ensures FitsIn(v, m)
  {
    hide Bit;
  }

  lemma {:induction false} ShiftedFits(v: bv64, n: nat)
    requires FitsIn(v, n) && n >= 4
    ensures FitsIn(Shr(v, 4), n - 4)
  {
    hide Bit, Shr;
    forall i | n - 4 <= i < 64 ensures !Bit(Shr(v, 4), i) {
      BitShr(v, 4, i);
      if Bit(v, i + 4) { InRange(v, i + 4); }
    }
  }

  lemma {:induction false} Rejoin(v: bv64)
    ensures Or(Shl(Shr(v, 4), 4), Nibble(v)) == v
  {
    hide Bit, Shr, Shl, Or, Nibble;
    var w := Or(Shl(Shr(v, 4), 4), Nibble(v));
    forall i | 0 <= i < 64 ensures Bit(w, i) == Bit(v, i) {
      BitOr(Shl(Shr(v, 4), 4), Nibble(v), i);
      BitShl(Shr(v, 4), 4, i);
      if i >= 4 { BitShr(v, 4, i - 4); }
      NibbleBit(v, i);
    }
    SameBits(w, v);
  }

  /** The chunks from the top one down to chunk c, without the leading ones that are zero. */
  function Significant(bm: seq<bv64>, nmaskbits: nat, c: nat): seq<bv64>
    requires c <= Chunks(nmaskbits) && BitsToLongs(nmaskbits) <= |bm|
    decreases Chunks(nmaskbits) - c
  {
    if c == Chunks(nmaskbits) then []
    else
      var above, v := Significant(bm, nmaskbits, c + 1), ChunkValue(bm, nmaskbits, c);
      if above == [] && v == 0 then [] else above + [v]
  }

  lemma {:induction false} SignificantBits(bm: seq<bv64>, nmaskbits: nat, c: nat, p: nat)
    requires c <= Chunks(nmaskbits) && BitsToLongs(nmaskbits) <= |bm|
    ensures Spelled(Significant(bm, nmaskbits, c), p) <==> 32 * c + p < nmaskbits && BitAt(bm, 32 * c + p)
    decreases Chunks(nmaskbits) - c
  {
    hide Bit, ChunkValue;
    if c < Chunks(nmaskbits) {
      var above, v, all := Significant(bm, nmaskbits, c + 1), ChunkValue(bm, nmaskbits, c),
                           Significant(bm, nmaskbits, c);
      if p < 32 {
        ValueBit(bm, nmaskbits, c, p);
        if all == [] { BitZero(p); }
      } else {
        SignificantBits(bm, nmaskbits, c + 1, p - 32);
        assert (p - 32) / 32 == p / 32 - 1 && (p - 32) % 32 == p % 32;
        assert Spelled(all, p) <==> Spelled(above, p - 32);
      }
    }
  }

  lemma {:induction false} SignificantNeeds(bm: seq<bv64>, nmaskbits: nat, c: nat)
    requires c <= Chunks(nmaskbits) && BitsToLongs(nmaskbits) <= |bm|
    ensures Significant(bm, nmaskbits, c) != [] ==> 32 * c + Needed(Significant(bm, nmaskbits, c)) <= nmaskbits
    decreases Chunks(nmaskbits) - c
  {
    hide Bit, ChunkValue, Fls;
    if c < Chunks(nmaskbits) {
      SignificantNeeds(bm, nmaskbits, c + 1);
      var v := ChunkValue(bm, nmaskbits, c);
      forall i | nmaskbits - 32 * c <= i < 64 ensures !Bit(v, i) { ValueBit(bm, nmaskbits, c, i); }
      FlsFits(v, nmaskbits - 32 * c);
    }
  }

  /** The end of the text, as the parser may find it; nothing behind a NUL is read. */
  predicate Ended(tail: string, missing: nat) {
    if tail == "" then missing == 0 else tail[0] == '\0'
  }

  /** The inner loop takes exactly the next chunk off a printed text. */
  lemma {:induction false} ScanText(bm: seq<bv64>, nmaskbits: nat, c: nat, tail: string, missing: nat,
                                    d: char, totaldigits: nat)
    requires 0 < c <= Chunks(nmaskbits) && BitsToLongs(nmaskbits) <= |bm| && Ended(tail, missing) && !IsSpace(d)
    ensures var s := GetChunk(Text(bm, nmaskbits, c) + tail, missing, d, 0, 0, totaldigits);
            && s.Got? && s.chunk == ChunkValue(bm, nmaskbits, c - 1) && s.ndigits > 0
            && (if c > 1 then s.c == ',' && s.rest == Text(bm, nmaskbits, c - 1) + tail
                else s.c != ',' || (s.rest == "" && missing == 0))
  {
    hide GetChunk, HexText, ChunkValue, ChunkSize, FitsIn, IsSpace, HexChar, Nibble;
    var v := ChunkValue(bm, nmaskbits, c - 1);
    var width := (ChunkSize(nmaskbits, c - 1) + 3) / 4;
    WidthFits(bm, nmaskbits, c - 1);
    var rest := (if c > 1 then "," else "") + Text(bm, nmaskbits, c - 1) + tail;
    assert Text(bm, nmaskbits, c) + tail == HexText(v, width) + rest;
    ReadDigits(v, width, rest, missing, d, totaldigits);
    Comma();
    ChunkEnds(rest, missing, HexChar(Nibble(v)), v, width, totaldigits + width);
    if c > 1 {
      assert rest[1..] == Text(bm, nmaskbits, c - 1) + tail;
    } else {
      assert rest == tail;
    }
  }

  lemma {:induction false} WidthFits(bm: seq<bv64>, nmaskbits: nat, c: nat)
    requires c < Chunks(nmaskbits) && BitsToLongs(nmaskbits) <= |bm|
    ensures var width := (ChunkSize(nmaskbits, c) + 3) / 4;
            0 < width <= 8 && FitsIn(ChunkValue(bm, nmaskbits, c), 4 * width)
  {
    hide Bit, ChunkValue;
    var width := (ChunkSize(nmaskbits, c) + 3) / 4;
    forall i | 4 * width <= i < 64 ensures !Bit(ChunkValue(bm, nmaskbits, c), i) { ValueBit(bm, nmaskbits, c, i); }
  }

  lemma {:induction false} ParseBack(bm: seq<bv64>, nmaskbits: nat, c: nat, tail: string, missing: nat,
                                     d: char, totaldigits: nat)
    requires 0 < c <= Chunks(nmaskbits) && BitsToLongs(nmaskbits) <= |bm| && Ended(tail, missing) && !IsSpace(d)
    ensures ParseFrom(Text(bm, nmaskbits, c) + tail, missing, d, totaldigits, Significant(bm, nmaskbits, c),
                      nmaskbits) ==
            Accepted(Significant(bm, nmaskbits, 0))
    decreases c
  {
    hide Bit, GetChunk, Text, ChunkValue, IsSpace, Needed;
    ScanText(bm, nmaskbits, c, tail, missing, d, totaldigits);
    SignificantNeeds(bm, nmaskbits, c - 1);
    NeededNone();
    if c > 1 {
      TextNotEmpty(bm, nmaskbits, c - 1);
      Comma();
      var s := GetChunk(Text(bm, nmaskbits, c) + tail, missing, d, 0, 0, totaldigits);
      ParseBack(bm, nmaskbits, c - 1, tail, missing, ',', s.totaldigits);
    }
  }

  lemma NeededNone()
    ensures Needed([]) == 0
  {
  }

  lemma Comma()
    ensures !IsSpace(',') && !IsSpace('\0')
    ensures forall v :: HexChar(v) != ','
  {
  }

  lemma ChunkEnds(rest: string, missing: nat, c: char, chunk: bv64, ndigits: nat, totaldigits: nat)
    requires if rest == "" then missing == 0 else rest[0] == ',' || rest[0] == '\0'
    requires !IsSpace(c)
    ensures GetChunk(rest, missing, c, chunk, ndigits, totaldigits) ==
            if rest == "" then Got(chunk, ndigits, totaldigits, c, "")
            else Got(chunk, ndigits, totaldigits, rest[0], rest[1..])
  {
  }

  lemma {:induction false} TextNotEmpty(bm: seq<bv64>, nmaskbits: nat, c: nat)
    requires 0 < c <= Chunks(nmaskbits) && BitsToLongs(nmaskbits) <= |bm|
    ensures Text(bm, nmaskbits, c) != ""
  {
    hide ChunkValue;
  }

  /**
   * Parsing a printed bitmap of at least one bit succeeds and gives the bits back, also where the leading chunks or
   * all of them are zero, and whether the text ends with the buffer or with a NUL.
   */
  lemma {:induction false} RoundTrip(bm: seq<bv64>, nmaskbits: nat, tail: string, missing: nat, back: seq<bv64>)
    requires 0 < nmaskbits && BitsToLongs(nmaskbits) <= |bm| && Ended(tail, missing)
    ensures var parsed := ParseText(FullText(bm, nmaskbits) + tail, missing, nmaskbits);
            && parsed.Accepted?
            && (Holds(back, parsed.chunks, nmaskbits) ==>
                  forall p: nat {:trigger BitAt(back, p)} | p < 64 * BitsToLongs(nmaskbits) ::
                    BitAt(back, p) <==> p < nmaskbits && BitAt(bm, p))
  {
    hide Bit, BitAt, ParseFrom, Text, Significant, Spelled, IsSpace;
    Comma();
    NoneYet(bm, nmaskbits);
    ParseBack(bm, nmaskbits, Chunks(nmaskbits), tail, missing, '\0', 0);
    forall p: nat | true
      ensures Spelled(Significant(bm, nmaskbits, 0), p) <==> p < nmaskbits && BitAt(bm, p)
    {
      SignificantBits(bm, nmaskbits, 0, p);
    }
  }

  lemma NoneYet(bm: seq<bv64>, nmaskbits: nat)
    requires BitsToLongs(nmaskbits) <= |bm|
    ensures Significant(bm, nmaskbits, Chunks(nmaskbits)) == []
  {
  }
}
