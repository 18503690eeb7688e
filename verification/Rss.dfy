/** uspace/src/rss.c and rss.h: the RSS hash by table, against the Toeplitz hash the device computes bit by bit. */
module Rss {

  /** The table K of the source, in rows of eight. */
  function Row(g: nat): (r: seq<bv32>)
    requires g < 12
    ensures |r| == 8
  {
    if g == 0 then
     [0x6d5a_56da, 0xdab4_adb4, 0xb569_5b68, 0x6ad2_b6d1,
     0xd5a5_6da2, 0xab4a_db44, 0x5695_b689, 0xad2b_6d12]
    else if g == 1 then
     [0x5a56_da25, 0xb4ad_b44a, 0x695b_6895, 0xd2b6_d12a,
     0xa56d_a255, 0x4adb_44ab, 0x95b6_8956, 0x2b6d_12ad]
    else if g == 2 then
     [0x56da_255b, 0xadb4_4ab6, 0x5b68_956c, 0xb6d1_2ad8,
     0x6da2_55b0, 0xdb44_ab61, 0xb689_56c3, 0x6d12_ad87]
    else if g == 3 then
     [0xda25_5b0e, 0xb44a_b61d, 0x6895_6c3b, 0xd12a_d876,
     0xa255_b0ec, 0x44ab_61d8, 0x8956_c3b0, 0x12ad_8761]
    else if g == 4 then
     [0x255b_0ec2, 0x4ab6_1d84, 0x956c_3b09, 0x2ad8_7612,
     0x55b0_ec24, 0xab61_d848, 0x56c3_b090, 0xad87_6120]
    else if g == 5 then
     [0x5b0e_c241, 0xb61d_8482, 0x6c3b_0905, 0xd876_120b,
     0xb0ec_2416, 0x61d8_482c, 0xc3b0_9059, 0x8761_20b3]
    else if g == 6 then
     [0x0ec2_4167, 0x1d84_82ce, 0x3b09_059c, 0x7612_0b39,
     0xec24_1672, 0xd848_2ce4, 0xb090_59c9, 0x6120_b392]
    else if g == 7 then
     [0xc241_6725, 0x8482_ce4a, 0x0905_9c94, 0x120b_3929,
     0x2416_7253, 0x482c_e4a7, 0x9059_c94f, 0x20b3_929e]
    else if g == 8 then
     [0x4167_253d, 0x82ce_4a7a, 0x059c_94f5, 0x0b39_29ea,
     0x1672_53d4, 0x2ce4_a7a8, 0x59c9_4f50, 0xb392_9ea1]
    else if g == 9 then
     [0x6725_3d43, 0xce4a_7a87, 0x9c94_f50e, 0x3929_ea1d,
     0x7253_d43a, 0xe4a7_a874, 0xc94f_50e8, 0x929e_a1d1]
    else if g == 10 then
     [0x253d_43a3, 0x4a7a_8747, 0x94f5_0e8e, 0x29ea_1d1c,
     0x53d4_3a38, 0xa7a8_7471, 0x4f50_e8e3, 0x9ea1_d1c7]
    else
     [0x3d43_a38f, 0x7a87_471f, 0xf50e_8e3e, 0xea1d_1c7d,
     0xd43a_38fb, 0xa874_71f6, 0x50e8_e3ec, 0xa1d1_c7d8]
  }

  function K(j: nat): bv32
    requires j < 96
  {
    Row(j / 8)[j % 8]
  }

  /** The hash key the driver programs (igb_setup_mrqc), register by register. */
  function KeyRegister(r: nat): (b: seq<bv32>)
    requires r < 10
    ensures |b| == 4
  {
    if r == 0 then [0x6d, 0x5a, 0x56, 0xda]
    else if r == 1 then [0x25, 0x5b, 0x0e, 0xc2]
    else if r == 2 then [0x41, 0x67, 0x25, 0x3d]
    else if r == 3 then [0x43, 0xa3, 0x8f, 0xb0]
    else if r == 4 then [0xd0, 0xca, 0x2b, 0xcb]
    else if r == 5 then [0xae, 0x7b, 0x30, 0xb4]
    else if r == 6 then [0x77, 0xcb, 0x2d, 0xa3]
    else if r == 7 then [0x80, 0x30, 0xf2, 0x0c]
    else if r == 8 then [0x6a, 0x42, 0xb7, 0x3b]
    else [0xbe, 0xac, 0x01, 0xfa]
  }

  function KeyByte(k: nat): bv32
    requires k < 40
  {
    KeyRegister(k / 4)[k % 4]
  }

  function MaskOf(i: nat): bv32 {
    if i == 0 then 0x80 else if i == 1 then 0x40 else if i == 2 then 0x20 else if i == 3 then 0x10
    else if i == 4 then 0x08 else if i == 5 then 0x04 else if i == 6 then 0x02 else 0x01
  }

  predicate Hit(b: bv32, m: bv32) {
    b & m != 0
  }

  /** Bit i of a byte, the most significant one first. */
  predicate ByteBit(b: bv32, i: nat) {
    Hit(b, MaskOf(i))
  }

  predicate KeyBit(n: nat)
    requires n < 320
  {
    ByteBit(KeyByte(n / 8), n % 8)
  }

  function ShiftIn(window: bv32, bit: bool): bv32 {
    (window << 1) | (if bit then 1 else 0)
  }

  function Xor(a: bv32, b: bv32): bv32 {
    a ^ b
  }

  function XorIf(r: bv32, bit: bool, w: bv32): bv32 {
    if bit then Xor(r, w) else r
  }

  // ---------- the Toeplitz hash, bit by bit ----------

  /** The last 32 of the first n bits of the key. */
  function KeyWindow(n: nat): bv32
    requires n <= 320
  {
    if n == 0 then 0 else ShiftIn(KeyWindow(n - 1), KeyBit(n - 1))
  }

  predicate InputBit(input: seq<bv32>, j: nat)
    requires j < 8 * |input|
  {
    ByteBit(input[j / 8], j % 8)
  }

  /** The hash register and the key register after j bits of input. */
  datatype Register = Register(result: bv32, window: bv32)

  /** For a 1 in the input, the key's upper 32 bits are added to the result; then the key is shifted by one. */
  function Serial(input: seq<bv32>, j: nat): Register
    requires j <= 8 * |input| <= 288
  {
    if j == 0 then Register(0, KeyWindow(32))
    else
      var r := Serial(input, j - 1);
      Register(XorIf(r.result, InputBit(input, j - 1), r.window), ShiftIn(r.window, KeyBit(32 + j - 1)))
  }

  function Toeplitz(input: seq<bv32>): bv32
    requires |input| == 12
  {
    Serial(input, 96).result
  }

  // ---------- the table holds the windows of the key ----------

  /** Each of eight words, and the one that follows, is the one before with one more bit of b. */
  ghost predicate Chain(row: seq<bv32>, next: bv32, b: bv32)
    requires |row| == 8
  {
    && row[1] == ShiftIn(row[0], ByteBit(b, 0)) && row[2] == ShiftIn(row[1], ByteBit(b, 1))
    && row[3] == ShiftIn(row[2], ByteBit(b, 2)) && row[4] == ShiftIn(row[3], ByteBit(b, 3))
    && row[5] == ShiftIn(row[4], ByteBit(b, 4)) && row[6] == ShiftIn(row[5], ByteBit(b, 5))
    && row[7] == ShiftIn(row[6], ByteBit(b, 6)) && next == ShiftIn(row[7], ByteBit(b, 7))
  }

  lemma Row0()
    ensures Chain(Row(0), Row(1)[0], KeyByte(4))
  {
  }

  lemma Row1()
    ensures Chain(Row(1), Row(2)[0], KeyByte(5))
  {
  }

  lemma Row2()
    ensures Chain(Row(2), Row(3)[0], KeyByte(6))
  {
  }

  lemma Row3()
    ensures Chain(Row(3), Row(4)[0], KeyByte(7))
  {
  }

  lemma Row4()
    ensures Chain(Row(4), Row(5)[0], KeyByte(8))
  {
  }

  lemma Row5()
    ensures Chain(Row(5), Row(6)[0], KeyByte(9))
  {
  }

  lemma Row6()
    ensures Chain(Row(6), Row(7)[0], KeyByte(10))
  {
  }

  lemma Row7()
    ensures Chain(Row(7), Row(8)[0], KeyByte(11))
  {
  }

  lemma Row8()
    ensures Chain(Row(8), Row(9)[0], KeyByte(12))
  {
  }

  lemma Row9()
    ensures Chain(Row(9), Row(10)[0], KeyByte(13))
  {
  }

  lemma Row10()
    ensures Chain(Row(10), Row(11)[0], KeyByte(14))
  {
    assert KeyByte(14) == 0x8f;
    hide KeyByte;
  }

  lemma Row11()
    ensures Chain(Row(11), ShiftIn(Row(11)[7], ByteBit(KeyByte(15), 7)), KeyByte(15))
  {
  }

  lemma {:induction false} EightSteps(g: nat)
    requires g < 12
    ensures Chain(Row(g), if g < 11 then Row(g + 1)[0] else ShiftIn(Row(11)[7], ByteBit(KeyByte(15), 7)),
                  KeyByte(g + 4))
  {
    hide Chain, Row, KeyByte, ShiftIn, ByteBit;
    if g == 0 { Row0(); } else if g == 1 { Row1(); } else if g == 2 { Row2(); } else if g == 3 { Row3(); }
    if g == 4 { Row4(); } else if g == 5 { Row5(); } else if g == 6 { Row6(); } else if g == 7 { Row7(); }
    if g == 8 { Row8(); } else if g == 9 { Row9(); } else if g == 10 { Row10(); } else if g == 11 { Row11(); }
  }

  lemma {:induction false} OneStep(j: nat)
    requires j < 95
    ensures K(j + 1) == ShiftIn(K(j), KeyBit(j + 32))
  {
    hide Row, KeyByte, ShiftIn, ByteBit;
    var g, i := j / 8, j % 8;
    EightSteps(g);
    assert (j + 32) / 8 == g + 4 && (j + 32) % 8 == i;
    if i == 7 {
      assert (j + 1) / 8 == g + 1 && (j + 1) % 8 == 0;
    } else {
      assert (j + 1) / 8 == g && (j + 1) % 8 == i + 1;
    }
  }

  function ByteIn(window: bv32, b: bv32): bv32 {
    (window << 8) | b
  }

  lemma FourBytes()
    ensures ByteIn(ByteIn(ByteIn(ByteIn(0, KeyByte(0)), KeyByte(1)), KeyByte(2)), KeyByte(3)) == K(0)
    ensures KeyByte(0) < 256 && KeyByte(1) < 256 && KeyByte(2) < 256 && KeyByte(3) < 256
  {
  }

  lemma {:induction false} FirstWindow()
    ensures KeyWindow(32) == K(0)
  {
    hide KeyByte, K, ByteIn;
    FourBytes();
    WindowByte(0);
    WindowByte(1);
    WindowByte(2);
    WindowByte(3);
    assert KeyWindow(0) == 0;
  }

  lemma {:induction false} WindowByte(k: nat)
    requires k < 40 && KeyByte(k) < 256
    ensures KeyWindow(8 * k + 8) == ByteIn(KeyWindow(8 * k), KeyByte(k))
  {
    hide ShiftIn, KeyBit, ByteBit, KeyByte, ByteIn;
    var w, b := KeyWindow(8 * k), KeyByte(k);
    forall i: nat | i < 8 ensures KeyWindow(8 * k + i + 1) == ShiftIn(KeyWindow(8 * k + i), ByteBit(b, i)) {
      OneBit(k, i);
    }
    Eight(w, b);
    assert KeyWindow(8 * k + 0 + 1) == ShiftIn(w, ByteBit(b, 0));
    assert KeyWindow(8 * k + 1 + 1) == ShiftIn(KeyWindow(8 * k + 1), ByteBit(b, 1));
    assert KeyWindow(8 * k + 2 + 1) == ShiftIn(KeyWindow(8 * k + 2), ByteBit(b, 2));
    assert KeyWindow(8 * k + 3 + 1) == ShiftIn(KeyWindow(8 * k + 3), ByteBit(b, 3));
    assert KeyWindow(8 * k + 4 + 1) == ShiftIn(KeyWindow(8 * k + 4), ByteBit(b, 4));
    assert KeyWindow(8 * k + 5 + 1) == ShiftIn(KeyWindow(8 * k + 5), ByteBit(b, 5));
    assert KeyWindow(8 * k + 6 + 1) == ShiftIn(KeyWindow(8 * k + 6), ByteBit(b, 6));
    assert KeyWindow(8 * k + 7 + 1) == ShiftIn(KeyWindow(8 * k + 7), ByteBit(b, 7));
  }

  lemma {:induction false} OneBit(k: nat, i: nat)
    requires k < 40 && i < 8
    ensures KeyWindow(8 * k + i + 1) == ShiftIn(KeyWindow(8 * k + i), ByteBit(KeyByte(k), i))
  {
    hide ShiftIn, ByteBit, KeyByte;
    assert (8 * k + i) / 8 == k && (8 * k + i) % 8 == i;
  }

  lemma Eight(w: bv32, b: bv32)
    requires b < 256
    ensures ShiftIn(ShiftIn(ShiftIn(ShiftIn(ShiftIn(ShiftIn(ShiftIn(ShiftIn(w,
              ByteBit(b, 0)), ByteBit(b, 1)), ByteBit(b, 2)), ByteBit(b, 3)),
              ByteBit(b, 4)), ByteBit(b, 5)), ByteBit(b, 6)), ByteBit(b, 7)) == ByteIn(w, b)
  {
  }

  /** K(j) is the 32 bits of the key from bit j on. */
  lemma {:induction false} TableIsKey(j: nat)
    requires j < 96
    ensures K(j) == KeyWindow(j + 32)
  {
    hide ShiftIn, KeyBit, K;
    if j == 0 {
      FirstWindow();
    } else {
      TableIsKey(j - 1);
      OneStep(j - 1);
    }
  }

  // ---------- the code ----------

  /** The words of the table for the ones among the first j bits of the input, added up. */
  function TableSum(input: seq<bv32>, j: nat): bv32
    requires j <= 8 * |input| <= 96
  {
    if j == 0 then 0 else XorIf(TableSum(input, j - 1), InputBit(input, j - 1), K(j - 1))
  }

  /** The table gives the Toeplitz hash. */
  lemma {:induction false} TableIsToeplitz(input: seq<bv32>, j: nat)
    requires j <= 8 * |input| <= 96
    ensures Serial(input, j) == Register(TableSum(input, j), KeyWindow(32 + j))
  {
    hide ShiftIn, KeyBit, ByteBit, XorIf, K;
    if j > 0 {
      TableIsToeplitz(input, j - 1);
      TableIsKey(j - 1);
    }
  }

  function ByteOf(w: bv32, i: nat): bv32 {
    if i == 0 then w & 0xFF else if i == 1 then (w >> 8) & 0xFF else if i == 2 then (w >> 16) & 0xFF else w >> 24
  }

  /** The word that holds both ports. */
  function Ports(sport: bv32, dport: bv32): bv32 {
    sport | (dport << 16)
  }

  /** The twelve bytes of t in memory: the addresses, then the two ports, all in network order. */
  function Input(saddr: bv32, daddr: bv32, sport: bv32, dport: bv32): (a: seq<bv32>)
    ensures |a| == 12
  {
    var t := [saddr, daddr, Ports(sport, dport)];
    seq(12, k requires 0 <= k < 12 => ByteOf(t[k / 4], k % 4))
  }

  /** A 32-bit and a 16-bit load on a little-endian machine. */
  function Load32(b0: bv32, b1: bv32, b2: bv32, b3: bv32): bv32 {
    b0 | (b1 << 8) | (b2 << 16) | (b3 << 24)
  }

  function Load16(b0: bv32, b1: bv32): bv32 {
    b0 | (b1 << 8)
  }

  lemma WordBytes(b0: bv32, b1: bv32, b2: bv32, b3: bv32)
    requires b0 < 256 && b1 < 256 && b2 < 256 && b3 < 256
    ensures var w := Load32(b0, b1, b2, b3);
            ByteOf(w, 0) == b0 && ByteOf(w, 1) == b1 && ByteOf(w, 2) == b2 && ByteOf(w, 3) == b3
  {
  }

  lemma PortBytes(b0: bv32, b1: bv32, b2: bv32, b3: bv32)
    requires b0 < 256 && b1 < 256 && b2 < 256 && b3 < 256
    ensures Ports(Load16(b0, b1), Load16(b2, b3)) == Load32(b0, b1, b2, b3)
  {
  }

  /** The hash goes over the bytes as the packet has them: both addresses, then both ports. */
  lemma {:induction false} InputBytes(b: seq<bv32>)
    requires |b| == 12 && forall k | 0 <= k < 12 :: b[k] < 256
    ensures Input(Load32(b[0], b[1], b[2], b[3]), Load32(b[4], b[5], b[6], b[7]), Load16(b[8], b[9]),
                  Load16(b[10], b[11])) == b
  {
    hide ByteOf, Ports, Load32, Load16;
    WordBytes(b[0], b[1], b[2], b[3]);
    WordBytes(b[4], b[5], b[6], b[7]);
    WordBytes(b[8], b[9], b[10], b[11]);
    PortBytes(b[8], b[9], b[10], b[11]);
  }

  /** input << 1 in an unsigned char */
  function Twice(b: bv32): bv32 {
    (b << 1) & 0xFF
  }

  lemma ShiftedBit(b: bv32, i: nat)
    requires i < 7
    ensures ByteBit(Twice(b), i) == ByteBit(b, i + 1)
  {
  }

  /** The bits of input are those of b from bit i on. */
  ghost predicate BitsFrom(input: bv32, b: bv32, i: nat) {
    forall n: nat {:trigger ByteBit(input, n)} | i + n < 8 :: ByteBit(input, n) == ByteBit(b, i + n)
  }

  lemma {:induction false} ShiftedBits(input: bv32, b: bv32, i: nat)
    requires BitsFrom(input, b, i)
    ensures BitsFrom(Twice(input), b, i + 1)
  {
    hide ByteBit, Twice;
    forall n: nat | i + 1 + n < 8 ensures ByteBit(Twice(input), n) == ByteBit(b, i + 1 + n) {
      ShiftedBit(input, n);
      assert ByteBit(input, n + 1) == ByteBit(b, i + (n + 1));
    }
  }

  lemma {:induction false} AllBits(b: bv32)
    ensures BitsFrom(b, b, 0)
  {
    hide ByteBit;
  }

  lemma {:induction false} FirstBit(input: bv32, b: bv32, i: nat)
    requires BitsFrom(input, b, i) && i < 8
    ensures ByteBit(b, i) == Hit(input, 0x80)
  {
    hide Hit;
    assert ByteBit(input, 0) == ByteBit(b, i + 0);
  }

  /** rss_hash_v4 */
  method Hash(saddr: bv32, daddr: bv32, sport: bv32, dport: bv32) returns (result: bv32)
    ensures result == Toeplitz(Input(saddr, daddr, sport, dport))
  {
    hide ByteBit, Xor, Serial, Twice, Input, TableSum, BitsFrom, Hit, K;
    var a := Input(saddr, daddr, sport, dport);
    result := 0;
    var j: nat := 0;
    NoSum(a);
    for k: nat := 0 to 12
      invariant j == 8 * k && result == TableSum(a, j)
    {
      var input := a[k];
      AllBits(input);
      for i: nat := 0 to 8
        invariant j == 8 * k + i && result == TableSum(a, j) && BitsFrom(input, a[k], i)
      {
        NextSum(a, j, k, i);
        FirstBit(input, a[k], i);
        if Hit(input, 0x80) {
          result := Xor(result, K(j));
        }
        ShiftedBits(input, a[k], i);
        input := Twice(input);
        j := j + 1;
      }
    }
    TableIsToeplitz(a, 96);
  }

  lemma NoSum(input: seq<bv32>)
    requires |input| == 12
    ensures TableSum(input, 0) == 0
  {
  }

  lemma {:induction false} NextSum(input: seq<bv32>, j: nat, k: nat, i: nat)
    requires |input| == 12 && k < 12 && i < 8 && j == 8 * k + i
    ensures TableSum(input, j + 1) ==
            if ByteBit(input[k], i) then Xor(TableSum(input, j), K(j)) else TableSum(input, j)
  {
    hide ByteBit, Xor, K;
    assert j / 8 == k && j % 8 == i;
  }

  // ---------- linearity ----------

  function XorBytes(a: seq<bv32>, b: seq<bv32>): (c: seq<bv32>)
    requires |a| == |b|
    ensures |c| == |a|
  {
    seq(|a|, k requires 0 <= k < |a| => Xor(a[k], b[k]))
  }

  lemma HitXor(a: bv32, b: bv32, m: bv32)
    requires m & (m - 1) == 0
    ensures Hit(Xor(a, b), m) == (Hit(a, m) != Hit(b, m))
  {
    assert (a ^ b) & m == (a & m) ^ (b & m);
    Whole(a, m);
    Whole(b, m);
  }

  lemma Whole(a: bv32, m: bv32)
    requires m & (m - 1) == 0
    ensures a & m == 0 || a & m == m
  {
  }

  lemma MaskSingle(i: nat)
    ensures MaskOf(i) & (MaskOf(i) - 1) == 0
  {
  }

  lemma {:induction false} XorBit(a: bv32, b: bv32, i: nat)
    ensures ByteBit(Xor(a, b), i) == (ByteBit(a, i) != ByteBit(b, i))
  {
    hide Hit, Xor, MaskOf;
    MaskSingle(i);
    HitXor(a, b, MaskOf(i));
  }

  lemma XorOrder(p: bv32, q: bv32)
    ensures Xor(p, q) == Xor(q, p)
  {
  }

  lemma {:induction false} XorLeft(p: bv32, q: bv32, w: bv32)
    ensures Xor(Xor(p, q), w) == Xor(Xor(p, w), q)
  {
    hide Xor;
    XorRight(p, q, w);
    XorRight(p, w, q);
    XorOrder(q, w);
  }

  lemma XorRight(p: bv32, q: bv32, w: bv32)
    ensures Xor(Xor(p, q), w) == Xor(p, Xor(q, w))
  {
    assert (p ^ q) ^ w == p ^ (q ^ w);
  }

  lemma XorBoth(p: bv32, q: bv32, w: bv32)
    ensures Xor(p, q) == Xor(Xor(p, w), Xor(q, w))
  {
    assert p ^ q == (p ^ w) ^ (q ^ w);
  }

  lemma {:induction false} XorSwap(p: bv32, q: bv32, w: bv32, x: bool, y: bool)
    ensures XorIf(Xor(p, q), x != y, w) == Xor(XorIf(p, x, w), XorIf(q, y, w))
  {
    hide Xor;
    XorLeft(p, q, w);
    XorRight(p, q, w);
    XorBoth(p, q, w);
  }

  lemma {:induction false} SumLinear(a: seq<bv32>, b: seq<bv32>, j: nat)
    requires |a| == |b| && j <= 8 * |a| <= 96
    ensures TableSum(XorBytes(a, b), j) == Xor(TableSum(a, j), TableSum(b, j))
  {
    hide ByteBit, XorIf, Xor, K;
    if j > 0 {
      SumLinear(a, b, j - 1);
      XorBit(a[(j - 1) / 8], b[(j - 1) / 8], (j - 1) % 8);
      XorSwap(TableSum(a, j - 1), TableSum(b, j - 1), K(j - 1), InputBit(a, j - 1), InputBit(b, j - 1));
    } else {
      XorZero();
    }
  }

  lemma XorZero()
    ensures Xor(0, 0) == 0
  {
  }

  lemma XorByteOf(v: bv32, w: bv32, i: nat)
    ensures ByteOf(Xor(v, w), i) == Xor(ByteOf(v, i), ByteOf(w, i))
  {
    if i == 0 {
      assert (v ^ w) & 0xFF == (v & 0xFF) ^ (w & 0xFF);
    } else if i == 1 {
      assert ((v ^ w) >> 8) & 0xFF == ((v >> 8) & 0xFF) ^ ((w >> 8) & 0xFF);
    } else if i == 2 {
      assert ((v ^ w) >> 16) & 0xFF == ((v >> 16) & 0xFF) ^ ((w >> 16) & 0xFF);
    } else {
      assert (v ^ w) >> 24 == (v >> 24) ^ (w >> 24);
    }
  }

  lemma XorPorts(s: bv32, d: bv32, s': bv32, d': bv32)
    requires s < 0x1_0000 && s' < 0x1_0000
    ensures Ports(Xor(s, s'), Xor(d, d')) == Xor(Ports(s, d), Ports(s', d'))
  {
    PortsApart(s, d);
    PortsApart(s', d');
    PortsApart(s ^ s', d ^ d');
    assert (d ^ d') << 16 == (d << 16) ^ (d' << 16);
    assert (s ^ s') ^ ((d << 16) ^ (d' << 16)) == (s ^ (d << 16)) ^ (s' ^ (d' << 16));
  }

  lemma PortsApart(s: bv32, d: bv32)
    requires s < 0x1_0000
    ensures Ports(s, d) == s ^ (d << 16)
  {
  }

  /** The hash is linear: the hash of the difference of two flows is the difference of their hashes. */
  lemma {:induction false} HashLinear(saddr: bv32, daddr: bv32, sport: bv32, dport: bv32,
                                      saddr': bv32, daddr': bv32, sport': bv32, dport': bv32)
    requires sport < 0x1_0000 && sport' < 0x1_0000
    ensures Toeplitz(Input(Xor(saddr, saddr'), Xor(daddr, daddr'), Xor(sport, sport'), Xor(dport, dport'))) ==
            Xor(Toeplitz(Input(saddr, daddr, sport, dport)), Toeplitz(Input(saddr', daddr', sport', dport')))
  {
    hide ByteOf, TableSum, Serial, Xor, Ports;
    var a, b := Input(saddr, daddr, sport, dport), Input(saddr', daddr', sport', dport');
    var c := Input(Xor(saddr, saddr'), Xor(daddr, daddr'), Xor(sport, sport'), Xor(dport, dport'));
    XorPorts(sport, dport, sport', dport');
    forall k | 0 <= k < 12 ensures c[k] == Xor(a[k], b[k]) {
      if k < 4 { XorByteOf(saddr, saddr', k % 4); }
      else if k < 8 { XorByteOf(daddr, daddr', k % 4); }
      else { XorByteOf(Ports(sport, dport), Ports(sport', dport'), k % 4); }
    }
    assert c == XorBytes(a, b);
    SumLinear(a, b, 96);
    TableIsToeplitz(a, 96);
    TableIsToeplitz(b, 96);
    TableIsToeplitz(c, 96);
  }

  // ---------- the queue ----------

  datatype Mac = E82575 | E82576 | E82580 | I350

  /** How igb_setup_mrqc spreads the entries: over so many queues, shifted left, and with the count above. */
  datatype Spread = Spread(queues: nat, shift: nat, shift2: nat)

  function SpreadOf(mac: Mac, vfs: nat, rssQueues: nat): (s: Spread)
    ensures s.shift in {0, 2, 3, 6} && s.shift2 in {0, 6}
    ensures rssQueues > 0 ==> s.queues > 0
  {
    if vfs > 0 then
      match mac
      case I350 => Spread(1, 0, 0)
      case E82580 => Spread(1, 0, 0)
      case E82576 => Spread(2, 3, 0)
      case E82575 => Spread(rssQueues, 2, 6)
    else if mac.E82575? then Spread(rssQueues, 6, 0)
    else Spread(rssQueues, 0, 0)
  }

  /** x << n in a byte */
  function ShiftByte(x: bv8, n: nat): bv8 {
    if n == 0 then x else if n == 2 then x << 2 else if n == 3 then x << 3 else x << 6
  }

  function OrByte(a: bv8, b: bv8): bv8 {
    a | b
  }

  function LowByte(n: nat): bv8 {
    (n % 256) as bv8
  }

  function RetaEntry(s: Spread, j: nat): bv8
    requires s.queues > 0
  {
    if s.shift2 > 0 then OrByte(ShiftByte(LowByte(j % s.queues), s.shift), ShiftByte(LowByte(s.queues), s.shift2))
    else ShiftByte(LowByte(j % s.queues), s.shift)
  }

  /** bytes holds the entries of the register that is being put together. */
  ghost predicate Collected(bytes: seq<bv8>, s: Spread, first: nat, n: nat)
    requires s.queues > 0
  {
    |bytes| == 4 && n <= 4 && forall c {:trigger bytes[c]} | 0 <= c < n :: bytes[c] == RetaEntry(s, first + c)
  }

  /** One entry of the table, put into its byte of the register. */
  method PutEntry(bytes: seq<bv8>, s: Spread, j: nat) returns (more: seq<bv8>)
    requires s.queues > 0 && |bytes| == 4
    ensures more == bytes[j % 4 := RetaEntry(s, j)]
  {
    hide LowByte, ShiftByte, OrByte, RetaEntry;
    EntryIs(s, j);
    more := bytes[j % 4 := ShiftByte(LowByte(j % s.queues), s.shift)];
    if s.shift2 > 0 {
      more := more[j % 4 := OrByte(more[j % 4], ShiftByte(LowByte(s.queues), s.shift2))];
    }
  }

  lemma NextEntry(bytes: seq<bv8>, s: Spread, j: nat)
    requires s.queues > 0 && Collected(bytes, s, j - j % 4, j % 4)
    ensures Collected(bytes[j % 4 := RetaEntry(s, j)], s, j - j % 4, j % 4 + 1)
    ensures if j % 4 == 3 then (j + 1) % 4 == 0 && j + 1 - (j + 1) % 4 == j + 1
            else (j + 1) % 4 == j % 4 + 1 && j + 1 - (j + 1) % 4 == j - j % 4
  {
    hide RetaEntry;
  }

  /** The loop that fills the redirection table, four entries to a register. */
  method FillReta(reta: array<bv8>, mac: Mac, vfs: nat, rssQueues: nat)
    requires reta.Length == 128 && rssQueues > 0
    modifies reta
    ensures forall k | 0 <= k < 128 :: reta[k] == RetaEntry(SpreadOf(mac, vfs, rssQueues), k)
  {
    hide SpreadOf, RetaEntry;
    var s := SpreadOf(mac, vfs, rssQueues);
    var bytes: seq<bv8> := [0, 0, 0, 0];
    for j: nat := 0 to 128
      invariant Collected(bytes, s, j - j % 4, j % 4)
      invariant forall k | 0 <= k < j - j % 4 :: reta[k] == RetaEntry(s, k)
    {
      NextEntry(bytes, s, j);
      bytes := PutEntry(bytes, s, j);
      if j % 4 == 3 {
        reta[j - 3], reta[j - 2], reta[j - 1], reta[j] := bytes[0], bytes[1], bytes[2], bytes[3];
      }
    }
  }

  lemma EntryIs(s: Spread, j: nat)
    requires s.queues > 0
    ensures RetaEntry(s, j) ==
            var entry := ShiftByte(LowByte(j % s.queues), s.shift);
            if s.shift2 > 0 then OrByte(entry, ShiftByte(LowByte(s.queues), s.shift2)) else entry
  {
  }

  /** The entries in numbers: queue j modulo their count, where the MAC looks for it, and the second queue above. */
  lemma {:induction false} RetaIs(mac: Mac, vfs: nat, rssQueues: nat, j: nat)
    requires rssQueues > 0
    ensures var entry := RetaEntry(SpreadOf(mac, vfs, rssQueues), j);
            var queue, count := ((j % rssQueues) % 256) as bv8, (rssQueues % 256) as bv8;
            match mac
            case E82575 => entry == if vfs == 0 then queue << 6 else (queue << 2) | (count << 6)
            case E82576 => entry == if vfs == 0 then queue else if j % 2 == 0 then 0 else 8
            case _ => entry == if vfs == 0 then queue else 0
  {
    EntryIs(SpreadOf(mac, vfs, rssQueues), j);
    SmallBytes();
    hide RetaEntry;
    if vfs > 0 {
      if mac.E82576? {
        assert j % 2 == 0 || j % 2 == 1;
      } else if !mac.E82575? {
        assert j % 1 == 0;
      }
    }
  }

  lemma SmallBytes()
    ensures LowByte(0) == 0 && ShiftByte(LowByte(1), 3) == 8 && ShiftByte(0, 3) == 0
  {
  }

  /** The entry of the redirection table that the device looks at. */
  function RetaIndex(hash: bv32): (j: nat)
    ensures j < 128
  {
    (hash & 0x7F) as nat
  }

  lemma RetaIndexIs(hash: bv32)
    ensures RetaIndex(hash) == (hash & 0x7F) as nat
  {
  }

  /** rss_hash_v4_idx */
  function HashIdx(hash: bv32, ringNum: nat): bv8
    requires ringNum > 0
  {
    LowByte(RetaIndex(hash) % ringNum)
  }

  /** The software knows the device's queue: without VFs, on every MAC but the 82575, with as many rings as queues. */
  lemma {:induction false} IdxIsQueue(reta: seq<bv8>, mac: Mac, rssQueues: nat, ringNum: nat, hash: bv32)
    requires |reta| == 128 && rssQueues > 0 && ringNum == rssQueues && mac != E82575
    requires forall k | 0 <= k < 128 :: reta[k] == RetaEntry(SpreadOf(mac, 0, rssQueues), k)
    ensures (hash & 0x7F) as nat < 128
    ensures HashIdx(hash, ringNum) == reta[(hash & 0x7F) as nat] == (((hash & 0x7F) as nat % rssQueues) % 256) as bv8
  {
    RetaIndexIs(hash);
    hide RetaIndex;
  }
}
