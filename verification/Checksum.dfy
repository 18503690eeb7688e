/** uspace/src/checksum.c: the Internet checksum, on bytes as a little-endian machine reads them. */
module Checksum {

  /** The sum of the 16-bit words as loaded; a last odd byte is the low half of a word. */
  function WordSum(b: seq<nat>): nat {
    if b == [] then 0 else if |b| == 1 then b[0] else b[0] + 256 * b[1] + WordSum(b[2..])
  }

  /** The sum of the words in network order, padded with a zero byte: section 1 of RFC 1071. */
  function NetworkSum(b: seq<nat>): nat {
    if b == [] then 0 else if |b| == 1 then 256 * b[0] else 256 * b[0] + b[1] + NetworkSum(b[2..])
  }

  /** The loop that adds the carries back. */
  function Fold(c: nat): nat {
    if c < 0x1_0000 then c else Fold(c / 0x1_0000 + c % 0x1_0000)
  }

  /** Folding gives the one's complement sum: the remainder by 65535, where only 0 itself becomes 0. */
  lemma {:induction false} FoldIs(c: nat)
    ensures Fold(c) < 0x1_0000 && Fold(c) % 65535 == c % 65535
    ensures Fold(c) == 0 <==> c == 0
    ensures Fold(c) == 65535 <==> c > 0 && c % 65535 == 0
    decreases c
  {
    if c >= 0x1_0000 {
      var d := c / 0x1_0000 + c % 0x1_0000;
      CarryBack(c);
      FoldIs(d);
    } else {
      SmallMultiple(c);
    }
  }

  /** Adding the carries back once. */
  lemma CarryBack(c: nat)
    requires c >= 0x1_0000
    ensures var d := c / 0x1_0000 + c % 0x1_0000; 0 < d < c && d % 65535 == c % 65535
  {
    var q, r := c / 0x1_0000, c % 0x1_0000;
    assert c == 0x1_0000 * q + r && q > 0;
    AddMultiple(q + r, q);
    assert 65535 * q + (q + r) == c;
  }

  lemma SmallMultiple(c: nat)
    requires c < 0x1_0000
    ensures c % 65535 == if c == 65535 then 0 else c
  {
  }

  // ---------- byte order ----------

  function OddBytes(b: seq<nat>): nat {
    if |b| < 2 then 0 else b[1] + OddBytes(b[2..])
  }

  /** Byte order independence, section 2 (B) of RFC 1071: a swap of all bytes multiplies by 256 modulo 65535. */
  lemma {:induction false} SwappedSum(b: seq<nat>)
    ensures 256 * WordSum(b) == NetworkSum(b) + 65535 * OddBytes(b)
  {
    if |b| >= 2 { SwappedSum(b[2..]); }
  }

  /** A sum is a positive multiple of 65535 in one byte order exactly if it is one in the other. */
  lemma {:induction false} SameVerdict(b: seq<nat>)
    ensures Fold(NetworkSum(b)) == 65535 <==> Fold(WordSum(b)) == 65535
  {
    SwappedSum(b);
    Positive(b);
    FoldIs(NetworkSum(b));
    FoldIs(WordSum(b));
    var w, n, odd := WordSum(b), NetworkSum(b), OddBytes(b);
    if w % 65535 == 0 {
      assert n == 65535 * (256 * (w / 65535) - odd);
      Divides(n, 256 * (w / 65535) - odd);
    }
    if n % 65535 == 0 {
      assert w == 65535 * (256 * (n / 65535 + odd) - w);
      Divides(w, 256 * (n / 65535 + odd) - w);
    }
  }

  lemma Divides(n: nat, k: int)
    requires n == 65535 * k
    ensures n % 65535 == 0
  {
  }

  lemma {:induction false} Positive(b: seq<nat>)
    ensures WordSum(b) > 0 <==> NetworkSum(b) > 0
  {
    if |b| >= 2 { Positive(b[2..]); }
  }

  lemma {:induction false} SumConcat(a: seq<nat>, b: seq<nat>)
    requires |a| % 2 == 0
    ensures WordSum(a + b) == WordSum(a) + WordSum(b)
  {
    if a == [] {
      assert a + b == b;
    } else {
      assert (a + b)[2..] == a[2..] + b;
      SumConcat(a[2..], b);
    }
  }

  /** Writing a word at an even offset where there was a zero adds it to the sum. */
  lemma {:induction false} SumWithWord(b: seq<nat>, off: nat, c: nat)
    requires off % 2 == 0 && off + 2 <= |b| && b[off] == b[off + 1] == 0
    ensures WordSum(b[off := c % 256][off + 1 := c / 256]) == WordSum(b) + c
  {
    if off == 0 {
      assert b[off := c % 256][off + 1 := c / 256][2..] == b[2..];
    } else {
      SumWithWord(b[2..], off - 2, c);
      assert b[off := c % 256][off + 1 := c / 256][2..] == b[2..][off - 2 := c % 256][off - 1 := c / 256];
    }
  }

  /** The sum that the receiver folds counts every byte, in an odd length also the last: with 256 at even places. */
  lemma {:induction false} EachByteCounts(b: seq<nat>, k: nat, v: nat)
    requires k < |b|
    ensures NetworkSum(b[k := v]) - NetworkSum(b) == (if k % 2 == 0 then 256 else 1) * (v - b[k])
    ensures (forall j | 0 <= j < |b| :: b[j] == 0) ==> NetworkSum(b) == 0
  {
    if |b| > 2 {
      if k < 2 {
        assert b[k := v][2..] == b[2..];
        EachByteCounts(b[2..], 0, 0);
      } else {
        EachByteCounts(b[2..], k - 2, v);
        assert b[k := v][2..] == b[2..][k - 2 := v];
      }
    } else {
      assert NetworkSum([]) == 0;
    }
  }

  // ---------- the code ----------

  /** _checksum; the sum of at most 65535 bytes and a pseudo header does not overflow an unsigned long. */
  method Sum(data: array<nat>, start: nat, size: nat, init: nat) returns (check: nat)
    requires start + size <= data.Length
    ensures check == 65535 - Fold(init + WordSum(data[start..start + size]))
  {
    hide Fold;
    var cksum: nat, pos: nat, left: nat := init, start, size;
    while left > 1
      invariant left <= size && pos + left == start + size
      invariant cksum + WordSum(data[pos..start + size]) == init + WordSum(data[start..start + size])
    {
      assert data[pos..start + size][2..] == data[pos + 2..start + size];
      cksum := cksum + data[pos] + 256 * data[pos + 1];
      pos := pos + 2;
      left := left - 2;
    }
    if left > 0 {
      cksum := cksum + data[pos];
    }
    ghost var total := cksum;
    while cksum / 0x1_0000 > 0
      invariant Fold(cksum) == Fold(total)
      decreases cksum
    {
      FoldStep(cksum);
      cksum := cksum / 0x1_0000 + cksum % 0x1_0000;
    }
    FoldDone(cksum);
    FoldIs(total);
    check := 65535 - cksum;
  }

  lemma FoldStep(c: nat)
    requires c >= 0x1_0000
    ensures Fold(c) == Fold(c / 0x1_0000 + c % 0x1_0000)
  {
  }

  lemma FoldDone(c: nat)
    requires c < 0x1_0000
    ensures Fold(c) == c
  {
  }

  /** A 32-bit address as it is loaded from its four bytes. */
  function Load32(b: seq<nat>, i: nat): nat
    requires i + 4 <= |b|
  {
    b[i] + 256 * b[i + 1] + 0x1_0000 * b[i + 2] + 0x100_0000 * b[i + 3]
  }

  function Htons(n: nat): nat {
    256 * (n % 256) + n / 256
  }

  ghost predicate AreBytes(b: seq<nat>) {
    forall k {:trigger b[k]} | 0 <= k < |b| :: b[k] < 256
  }

  /** Where an IP header has its two addresses, and of how many 32-bit words they are. */
  function Source(ip: nat, v4: bool): nat {
    if v4 then ip + 12 else ip + 8
  }

  function AddressWords(v4: bool): nat {
    if v4 then 1 else 4
  }

  function HeaderSize(v4: bool): nat {
    if v4 then 20 else 40
  }

  /** The protocol of an IPv4 header, the next header of an IPv6 header. */
  function Protocol(b: seq<nat>, ip: nat, v4: bool): nat
    requires ip + HeaderSize(v4) <= |b|
  {
    if v4 then b[ip + 9] else b[ip + 6]
  }

  /** The length of the segment behind an IP header without options or extensions, as a u16. */
  function SegmentSize(b: seq<nat>, ip: nat, v4: bool): nat
    requires ip + HeaderSize(v4) <= |b|
  {
    if v4 then (256 * b[ip + 2] + b[ip + 3] + 0x1_0000 - 20) % 0x1_0000 else 256 * b[ip + 4] + b[ip + 5]
  }

  /** The pseudo header of section 3.1 of RFC 793, or for IPv6 of section 8.1 of RFC 8200. */
  function PseudoHeader(b: seq<nat>, ip: nat, v4: bool, size: nat, proto: nat): (p: seq<nat>)
    requires ip + HeaderSize(v4) <= |b|
    ensures |p| % 2 == 0
  {
    var n := 8 * AddressWords(v4);
    b[Source(ip, v4)..Source(ip, v4) + n] +
    if v4 then [0, proto, size / 256, size % 256] else [0, 0, size / 256, size % 256, 0, 0, 0, proto]
  }

  lemma {:induction false} PseudoSum(b: seq<nat>, ip: nat, v4: bool, size: nat, proto: nat)
    requires ip + HeaderSize(v4) <= |b| && size < 0x1_0000
    ensures var src, n := Source(ip, v4), 4 * AddressWords(v4);
            WordSum(PseudoHeader(b, ip, v4, size, proto)) ==
            WordSum(b[src..src + n]) + WordSum(b[src + n..src + 2 * n]) + 256 * proto + Htons(size)
  {
    var src, n := Source(ip, v4), 4 * AddressWords(v4);
    var tail := if v4 then [0, proto, size / 256, size % 256] else [0, 0, size / 256, size % 256, 0, 0, 0, proto];
    assert b[src..src + 2 * n] == b[src..src + n] + b[src + n..src + 2 * n];
    SumConcat(b[src..src + n], b[src + n..src + 2 * n]);
    SumConcat(b[src..src + 2 * n], tail);
    TailSum(v4, size, proto);
  }

  lemma TailSum(v4: bool, size: nat, proto: nat)
    ensures WordSum(if v4 then [0, proto, size / 256, size % 256]
                    else [0, 0, size / 256, size % 256, 0, 0, 0, proto]) ==
            256 * proto + Htons(size)
  {
    hide WordSum;
    NoWords();
    var lenWord := [size / 256, size % 256];
    SumPair(size / 256, size % 256, []);
    if v4 {
      SumPair(0, proto, lenWord);
      assert [0, proto] + lenWord == [0, proto, size / 256, size % 256];
    } else {
      SumPair(0, proto, []);
      SumPair(0, 0, [0, proto]);
      SumPair(size / 256, size % 256, [0, 0, 0, proto]);
      SumPair(0, 0, [size / 256, size % 256, 0, 0, 0, proto]);
      assert [0, 0] + [0, proto] == [0, 0, 0, proto];
      assert lenWord + [0, 0, 0, proto] == [size / 256, size % 256, 0, 0, 0, proto];
      assert [0, 0] + [size / 256, size % 256, 0, 0, 0, proto] == [0, 0, size / 256, size % 256, 0, 0, 0, proto];
    }
    assert lenWord + [] == lenWord && [0, proto] + [] == [0, proto];
  }

  lemma NoWords()
    ensures WordSum([]) == 0
  {
  }

  lemma Halves(b: seq<nat>, i: nat)
    requires i + 4 <= |b| && AreBytes(b)
    ensures Load32(b, i) / 0x1_0000 + Load32(b, i) % 0x1_0000 == WordSum(b[i..i + 4])
  {
    hide WordSum;
    assert b[i..i + 4] == [b[i], b[i + 1]] + [b[i + 2], b[i + 3]];
    SumPair(b[i], b[i + 1], [b[i + 2], b[i + 3]]);
    assert [b[i + 2], b[i + 3]] == [b[i + 2], b[i + 3]] + [];
    SumPair(b[i + 2], b[i + 3], []);
    NoWords();
    assert Load32(b, i) / 0x1_0000 == b[i + 2] + 256 * b[i + 3];
  }

  lemma SumPair(x: nat, y: nat, rest: seq<nat>)
    ensures WordSum([x, y] + rest) == x + 256 * y + WordSum(rest)
  {
    assert ([x, y] + rest)[2..] == rest;
  }

  /** One more address word. */
  lemma {:induction false} NextWord(b: seq<nat>, src: nat, i: nat)
    requires src + 4 * (i + 1) <= |b| && AreBytes(b)
    ensures var w := Load32(b, src + 4 * i);
            WordSum(b[src..src + 4 * (i + 1)]) == WordSum(b[src..src + 4 * i]) + (w / 0x1_0000 + w % 0x1_0000)
  {
    hide WordSum, AreBytes, Load32;
    var low, high := src + 4 * i, src + 4 * i + 4;
    assert b[src..high] == b[src..low] + b[low..high];
    SumConcat(b[src..low], b[low..high]);
    Halves(b, low);
  }

  /** One turn of the loop over the address words. */
  method AddWords(data: array<nat>, src: nat, dst: nat, i: nat, cksum: nat) returns (more: nat)
    requires AreBytes(data[..]) && src + 4 * (i + 1) <= data.Length && dst + 4 * (i + 1) <= data.Length
    ensures var b := data[..];
            more + WordSum(b[src..src + 4 * i]) + WordSum(b[dst..dst + 4 * i]) ==
            cksum + WordSum(b[src..src + 4 * (i + 1)]) + WordSum(b[dst..dst + 4 * (i + 1)])
  {
    hide WordSum, AreBytes, Load32;
    NextWord(data[..], src, i);
    NextWord(data[..], dst, i);
    var srcWord, dstWord := Load32(data[..], src + 4 * i), Load32(data[..], dst + 4 * i);
    more := cksum + srcWord / 0x1_0000;
    more := more + srcWord % 0x1_0000;
    more := more + dstWord / 0x1_0000;
    more := more + dstWord % 0x1_0000;
  }

  /** checksum_tcpudp; src and dst are where the addresses of ipLen words are. */
  method SumWithPseudoHeader(data: array<nat>, start: nat, size: nat, src: nat, dst: nat, ipLen: nat, proto: nat,
                             len: nat)
    returns (check: nat)
    requires start + size <= data.Length && AreBytes(data[..])
    requires src + 4 * ipLen <= data.Length && dst + 4 * ipLen <= data.Length
    ensures check == 65535 - Fold(WordSum(data[..][src..src + 4 * ipLen]) + WordSum(data[..][dst..dst + 4 * ipLen]) +
                                  256 * proto + len + WordSum(data[start..start + size]))
  {
    hide WordSum, AreBytes, Fold;
    var cksum: nat := 0;
    NoWords();
    var i := 0;
    assert data[..][src..src] == [] && data[..][dst..dst] == [];
    while i < ipLen
      invariant 0 <= i <= ipLen
      invariant cksum == WordSum(data[..][src..src + 4 * i]) + WordSum(data[..][dst..dst + 4 * i])
    {
      cksum := AddWords(data, src, dst, i, cksum);
      i := i + 1;
    }
    cksum := cksum + 256 * proto;
    cksum := cksum + len;
    check := Sum(data, start, size, cksum);
  }

  /** What the receiver of a packet computes over its IP header: section 3.1 of RFC 791. */
  ghost predicate HeaderAccepted(b: seq<nat>, ip: nat)
    requires ip + 20 <= |b|
  {
    Fold(NetworkSum(b[ip..ip + 20])) == 0xFFFF
  }

  /** What the receiver computes over pseudo header and segment. */
  ghost predicate SegmentAccepted(b: seq<nat>, ip: nat, v4: bool, l4: nat)
    requires ip + HeaderSize(v4) <= |b| && l4 + SegmentSize(b, ip, v4) <= |b|
  {
    var size := SegmentSize(b, ip, v4);
    Fold(NetworkSum(PseudoHeader(b, ip, v4, size, Protocol(b, ip, v4)) + b[l4..l4 + size])) == 0xFFFF
  }

  /** Section 3.1 of RFC 793: both addresses, a zero, the protocol and the length of the n bytes behind the header. */
  ghost predicate Ipv4SegmentAccepted(b: seq<nat>, ip: nat, l4: nat, n: nat)
    requires ip + 20 <= |b| && l4 + n <= |b|
  {
    Fold(NetworkSum(b[ip + 12..ip + 20] + [0, b[ip + 9], n / 256, n % 256] + b[l4..l4 + n])) == 0xFFFF
  }

  /** Section 8.1 of RFC 8200: both addresses, the length of the n bytes behind the header and the next header. */
  ghost predicate Ipv6SegmentAccepted(b: seq<nat>, ip: nat, l4: nat, n: nat)
    requires ip + 40 <= |b| && l4 + n <= |b|
  {
    Fold(NetworkSum(b[ip + 8..ip + 40] + [0, 0, n / 256, n % 256, 0, 0, 0, b[ip + 6]] + b[l4..l4 + n])) == 0xFFFF
  }

  /** The length that the sender computes is the one that the header's total length leaves behind 20 bytes. */
  lemma {:induction false} Ipv4Segment(b: seq<nat>, ip: nat, l4: nat, n: nat)
    requires ip + 20 <= |b| && AreBytes(b) && n + 20 == 256 * b[ip + 2] + b[ip + 3]
    ensures SegmentSize(b, ip, true) == n
    ensures l4 + n <= |b| ==> (Ipv4SegmentAccepted(b, ip, l4, n) <==> SegmentAccepted(b, ip, true, l4))
  {
    hide Fold, NetworkSum;
    assert b[ip + 2] < 256 && b[ip + 3] < 256;
  }

  lemma {:induction false} Ipv6Segment(b: seq<nat>, ip: nat, l4: nat, n: nat)
    requires ip + 40 <= |b| && n == 256 * b[ip + 4] + b[ip + 5]
    ensures SegmentSize(b, ip, false) == n
    ensures l4 + n <= |b| ==> (Ipv6SegmentAccepted(b, ip, l4, n) <==> SegmentAccepted(b, ip, false, l4))
  {
    hide Fold, NetworkSum;
  }

  /** What acceptance means for the n bytes that the header speaks of. */
  lemma {:induction false} ByLength(b: seq<nat>, ip: nat, v4: bool, l4: nat)
    requires ip + HeaderSize(v4) <= |b| && l4 + SegmentSize(b, ip, v4) <= |b| && AreBytes(b)
    requires SegmentAccepted(b, ip, v4, l4) <==> v4 || b[ip + 9] == b[ip + 6]
    ensures var total := 256 * b[ip + 2] + b[ip + 3];
            v4 && total >= 20 ==>
              l4 + (total - 20) <= |b| && Ipv4SegmentAccepted(b, ip, l4, total - 20)
    ensures var n := 256 * b[ip + 4] + b[ip + 5];
            !v4 ==> l4 + n <= |b| && (Ipv6SegmentAccepted(b, ip, l4, n) <==> b[ip + 9] == b[ip + 6])
  {
    hide SegmentAccepted, Ipv4SegmentAccepted, Ipv6SegmentAccepted, AreBytes, SegmentSize;
    if v4 {
      var total := 256 * b[ip + 2] + b[ip + 3];
      if total >= 20 { Ipv4Segment(b, ip, l4, total - 20); }
    } else {
      Ipv6Segment(b, ip, l4, 256 * b[ip + 4] + b[ip + 5]);
    }
  }

  lemma HeaderSizes(v4: bool)
    ensures HeaderSize(v4) == if v4 then 20 else 40
  {
  }

  /** Nothing but the two bytes at off has changed. */
  ghost predicate OnlyWord(before: seq<nat>, after: seq<nat>, off: nat) {
    |before| == |after| &&
    forall k {:trigger after[k]} | 0 <= k < |after| && k != off && k != off + 1 :: after[k] == before[k]
  }

  /** A word that completes a sum to a multiple of 65535; nothing smaller can be added on top of it. */
  lemma {:induction false} Completes(b: seq<nat>, before: nat, check: nat, d: int)
    requires check == 65535 - Fold(before) && WordSum(b) == before + check + d && -65535 < d < 65535
    ensures Fold(NetworkSum(b)) == 0xFFFF <==> d == 0
  {
    hide Fold, WordSum, NetworkSum;
    FoldIs(before);
    Together(before, Fold(before));
    FoldIs(WordSum(b));
    SameVerdict(b);
    MultipleIff(before + check, d);
  }

  lemma MultipleIff(s: nat, d: int)
    requires s > 0 && s % 65535 == 0 && -65535 < d < 65535
    ensures s + d > 0 && (s + d) % 65535 == 0 <==> d == 0
  {
    var k := s / 65535;
    if d > 0 { RemainderIs(s + d, k, d); }
    if d < 0 { RemainderIs(s + d, k - 1, 65535 + d); }
  }

  lemma RemainderIs(n: int, k: int, r: nat)
    requires n == 65535 * k + r && r < 65535
    ensures n % 65535 == r
  {
  }

  lemma Together(s: nat, f: nat)
    requires f <= 65535 && f % 65535 == s % 65535 && (f == 0 <==> s == 0)
    ensures (s + (65535 - f)) % 65535 == 0 && s + (65535 - f) > 0
  {
    var q, r := s / 65535, f / 65535;
    assert s + (65535 - f) == 65535 * (q - r + 1);
    Divides(s + (65535 - f), q - r + 1);
  }

  /** checksum_ipv4 of a header without options */
  method ChecksumIpv4(data: array<nat>, ip: nat)
    requires ip + 20 <= data.Length && AreBytes(data[..])
    modifies data
    ensures HeaderAccepted(data[..], ip) && OnlyWord(old(data[..]), data[..], ip + 10) && AreBytes(data[..])
  {
    hide Fold, WordSum, NetworkSum;
    data[ip + 10], data[ip + 11] := 0, 0;
    var check := Sum(data, ip, 20, 0);
    ghost var header := data[ip..ip + 20];
    data[ip + 10], data[ip + 11] := check % 256, check / 256;
    SumWithWord(header, 10, check);
    assert data[ip..ip + 20] == header[10 := check % 256][11 := check / 256];
    Completes(data[ip..ip + 20], WordSum(header), check, 0);
    assert data[..][ip..ip + 20] == data[ip..ip + 20];
  }

  /**
   * What checksum_tcp and checksum_udp share; field is the offset of the check field in the segment at l4, whose
   * length, odd or even, comes from the IP header. The protocol is read where IPv4 has it: the receiver of an IPv6
   * packet accepts the segment exactly if that byte, the second one of the source address, is the next header.
   */
  method ChecksumSegment(data: array<nat>, ip: nat, v4: bool, l4: nat, field: nat)
    requires ip + HeaderSize(v4) <= l4 && AreBytes(data[..]) && l4 < data.Length
    requires l4 + SegmentSize(data[..], ip, v4) <= data.Length
    requires field % 2 == 0 && field + 2 <= SegmentSize(data[..], ip, v4)
    modifies data
    ensures OnlyWord(old(data[..]), data[..], l4 + field) && AreBytes(data[..])
    ensures SegmentSize(data[..], ip, v4) == old(SegmentSize(data[..], ip, v4))
    ensures SegmentAccepted(data[..], ip, v4, l4) <==> v4 || data[ip + 9] == data[ip + 6]
  {
    hide Fold, WordSum, NetworkSum, AreBytes, PseudoHeader, Htons, SegmentSize, HeaderSize, Source, AddressWords;
    ghost var before := data[..];
    SizeOf(before, ip, v4);
    StoreWord(data, l4 + field, 0);
    ghost var zeroed := data[..];
    SameSize(before, zeroed, ip, v4, l4 + field);
    var size: nat := SegmentSize(data[..], ip, v4);
    var len := Htons(size);
    var src, words := Source(ip, v4), AddressWords(v4);
    var check := SumWithPseudoHeader(data, l4, size, src, src + 4 * words, words, data[ip + 9], len);
    assert data[l4..l4 + size] == zeroed[l4..l4 + size];
    StoreWord(data, l4 + field, check);
    SameSize(zeroed, data[..], ip, v4, l4 + field);
    SegmentSummed(zeroed, data[..], ip, v4, l4, size, field, check);
  }

  /** A store of 16 bits on a little-endian machine. */
  method StoreWord(data: array<nat>, off: nat, w: nat)
    requires off + 2 <= data.Length && AreBytes(data[..]) && w < 0x1_0000
    modifies data
    ensures OnlyWord(old(data[..]), data[..], off) && AreBytes(data[..])
    ensures data[off] == w % 256 && data[off + 1] == w / 256
  {
    data[off], data[off + 1] := w % 256, w / 256;
  }

  lemma SameSize(before: seq<nat>, after: seq<nat>, ip: nat, v4: bool, off: nat)
    requires ip + HeaderSize(v4) <= off && ip + HeaderSize(v4) <= |before| && OnlyWord(before, after, off)
    ensures SegmentSize(after, ip, v4) == SegmentSize(before, ip, v4)
  {
  }

  lemma SizeOf(b: seq<nat>, ip: nat, v4: bool)
    requires ip + HeaderSize(v4) <= |b| && AreBytes(b)
    ensures SegmentSize(b, ip, v4) < 0x1_0000
    ensures HeaderSize(v4) >= 10 && Source(ip, v4) + 8 * AddressWords(v4) == ip + HeaderSize(v4)
  {
  }

  /** The segment with the complement of its sum in the field is accepted if the sum was made with the protocol. */
  lemma {:induction false} SegmentSummed(zeroed: seq<nat>, after: seq<nat>, ip: nat, v4: bool, l4: nat, size: nat,
                                         field: nat, check: nat)
    requires ip + HeaderSize(v4) <= l4 && l4 + size <= |zeroed| && field % 2 == 0 && field + 2 <= size < 0x1_0000
    requires AreBytes(zeroed) && OnlyWord(zeroed, after, l4 + field)
    requires zeroed[l4 + field] == zeroed[l4 + field + 1] == 0
    requires after[l4 + field] == check % 256 && after[l4 + field + 1] == check / 256
    requires var src, n := Source(ip, v4), 4 * AddressWords(v4);
             check == 65535 - Fold(WordSum(zeroed[src..src + n]) + WordSum(zeroed[src + n..src + n + n]) +
                                   256 * zeroed[ip + 9] + Htons(size) + WordSum(zeroed[l4..l4 + size]))
    ensures var pseudo := PseudoHeader(after, ip, v4, size, Protocol(after, ip, v4));
            Fold(NetworkSum(pseudo + after[l4..l4 + size])) == 0xFFFF <==> v4 || after[ip + 9] == after[ip + 6]
  {
    hide Fold, WordSum, NetworkSum, AreBytes, Htons;
    var used: int, proto: int := zeroed[ip + 9], Protocol(zeroed, ip, v4);
    assert used < 256 && proto < 256 by { ByteAt(zeroed, ip + 9); ByteAt(zeroed, ip + 6); }
    PseudoSum(zeroed, ip, v4, size, used);
    PseudoSum(zeroed, ip, v4, size, proto);
    var pseudo: seq<nat>, segment: seq<nat> := PseudoHeader(zeroed, ip, v4, size, proto), zeroed[l4..l4 + size];
    SamePseudo(zeroed, after, ip, v4, l4, size, field);
    SumWithWord(segment, field, check);
    assert after[l4..l4 + size] == segment[field := check % 256][field + 1 := check / 256];
    SumConcat(pseudo, after[l4..l4 + size]);
    Completes(pseudo + after[l4..l4 + size],
              WordSum(PseudoHeader(zeroed, ip, v4, size, used)) + WordSum(segment), check, 256 * (proto - used));
  }

  lemma SamePseudo(zeroed: seq<nat>, after: seq<nat>, ip: nat, v4: bool, l4: nat, size: nat, field: nat)
    requires ip + HeaderSize(v4) <= l4 && l4 <= |zeroed| && OnlyWord(zeroed, after, l4 + field)
    ensures Protocol(after, ip, v4) == Protocol(zeroed, ip, v4)
    ensures PseudoHeader(after, ip, v4, size, Protocol(after, ip, v4)) ==
            PseudoHeader(zeroed, ip, v4, size, Protocol(zeroed, ip, v4))
    ensures after[ip + 9] == zeroed[ip + 9] && after[ip + 6] == zeroed[ip + 6]
  {
    var src, n := Source(ip, v4), 8 * AddressWords(v4);
    assert after[src..src + n] == zeroed[src..src + n];
  }

  lemma ByteAt(b: seq<nat>, k: nat)
    requires AreBytes(b) && k < |b|
    ensures b[k] < 256
  {
  }

  // ---------- an IPv6 packet that is refused ----------

  function Zeros(n: nat): seq<nat> {
    seq(n, _ => 0)
  }

  /** An IPv6 header from 1:: to 0:: with an empty TCP segment, whose check field has these two bytes. */
  function Ipv6Packet(low: nat, high: nat): (b: seq<nat>)
    ensures |b| == 60
  {
    [0, 0, 0, 0, 0, 20, 6, 0] + [0, 1] + Zeros(14) + Zeros(16) + Zeros(16) + [low, high] + Zeros(2)
  }

  lemma {:induction false} ZeroSum(n: nat)
    ensures WordSum(Zeros(2 * n)) == 0
  {
    if n > 0 {
      ZeroSum(n - 1);
      assert Zeros(2 * n)[2..] == Zeros(2 * (n - 1));
    }
  }

  /** What checksum_tcp computes for this packet, and that its receiver does not accept it. */
  lemma {:induction false} Ipv6Refused()
    ensures var b, sum := Ipv6Packet(0, 0), 65535 - 59903;
            WordSum(b[8..24]) + WordSum(b[24..40]) + 256 * b[9] + Htons(20) + WordSum(b[40..60]) == sum == Fold(sum)
    ensures var b := Ipv6Packet(59903 % 256, 59903 / 256);
            SegmentSize(b, 0, false) == 20 && Protocol(b, 0, false) == 6 && b[9] == 1
            && !SegmentAccepted(b, 0, false, 40)
  {
    hide WordSum, NetworkSum;
    var zeroed, after := Ipv6Packet(0, 0), Ipv6Packet(59903 % 256, 59903 / 256);
    ZeroSum(7);
    ZeroSum(8);
    ZeroSum(10);
    assert zeroed[8..24] == [0, 1] + Zeros(14) && zeroed[24..40] == Zeros(16) && zeroed[40..60] == Zeros(20);
    SumPair(0, 1, Zeros(14));
    SegmentSummed(zeroed, after, 0, false, 40, 20, 16, 59903);
  }

  /** checksum_tcp */
  method ChecksumTcp(data: array<nat>, ip: nat, v4: bool, tcp: nat)
    requires ip + HeaderSize(v4) <= tcp && AreBytes(data[..]) && tcp < data.Length
    requires tcp + SegmentSize(data[..], ip, v4) <= data.Length && 20 <= SegmentSize(data[..], ip, v4)
    modifies data
    ensures OnlyWord(old(data[..]), data[..], tcp + 16) && AreBytes(data[..])
    ensures var total := 256 * data[ip + 2] + data[ip + 3];
            v4 && total >= 20 ==>
              tcp + (total - 20) <= data.Length && Ipv4SegmentAccepted(data[..], ip, tcp, total - 20)
    ensures var n := 256 * data[ip + 4] + data[ip + 5];
            !v4 ==> tcp + n <= data.Length
                    && (Ipv6SegmentAccepted(data[..], ip, tcp, n) <==> data[ip + 9] == data[ip + 6])
  {
    hide SegmentAccepted, Ipv4SegmentAccepted, Ipv6SegmentAccepted, SegmentSize, HeaderSize, AreBytes, OnlyWord;
    HeaderSizes(v4);
    ChecksumSegment(data, ip, v4, tcp, 16);
    ByLength(data[..], ip, v4, tcp);
  }

  /** checksum_udp */
  method ChecksumUdp(data: array<nat>, ip: nat, v4: bool, udp: nat)
    requires ip + HeaderSize(v4) <= udp && AreBytes(data[..]) && udp < data.Length
    requires udp + SegmentSize(data[..], ip, v4) <= data.Length && 8 <= SegmentSize(data[..], ip, v4)
    modifies data
    ensures OnlyWord(old(data[..]), data[..], udp + 6) && AreBytes(data[..])
    ensures var total := 256 * data[ip + 2] + data[ip + 3];
            v4 && total >= 20 ==>
              udp + (total - 20) <= data.Length && Ipv4SegmentAccepted(data[..], ip, udp, total - 20)
    ensures var n := 256 * data[ip + 4] + data[ip + 5];
            !v4 ==> udp + n <= data.Length
                    && (Ipv6SegmentAccepted(data[..], ip, udp, n) <==> data[ip + 9] == data[ip + 6])
  {
    hide SegmentAccepted, Ipv4SegmentAccepted, Ipv6SegmentAccepted, SegmentSize, HeaderSize, AreBytes, OnlyWord;
    HeaderSizes(v4);
    ChecksumSegment(data, ip, v4, udp, 6);
    ByLength(data[..], ip, v4, udp);
  }

  /**
   * The field becomes 0, which in UDP means that there is no checksum, exactly if the rest of the words adds up to
   * a positive multiple of 65535; the code does not turn that 0 into 0xFFFF as RFC 768 asks.
   */
  lemma {:induction false} ZeroCheck(sum: nat)
    ensures 65535 - Fold(sum) == 0 <==> sum > 0 && sum % 65535 == 0
  {
    FoldIs(sum);
  }

  /** A change of the words goes unnoticed exactly if it changes their sum by a multiple of 65535, and not to 0. */
  lemma {:induction false} ErrorNoticed(b: seq<nat>, b': seq<nat>)
    requires Fold(NetworkSum(b)) == 0xFFFF
    ensures Fold(NetworkSum(b')) == 0xFFFF <==> WordSum(b') > 0 && (WordSum(b') - WordSum(b)) % 65535 == 0
  {
    SameVerdict(b);
    SameVerdict(b');
    FoldIs(WordSum(b));
    FoldIs(WordSum(b'));
    var q, d := WordSum(b) / 65535, WordSum(b') - WordSum(b);
    assert WordSum(b) == 65535 * q;
    AddMultiple(d, q);
  }

  lemma AddMultiple(d: int, q: nat)
    ensures (65535 * q + d) % 65535 == d % 65535
  {
    var r, m := d / 65535, d % 65535;
    assert 65535 * q + d == 65535 * (q + r) + m;
  }
}
