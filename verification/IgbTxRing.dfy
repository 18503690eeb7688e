/** modules/igb/igb_main.c: the transmit ring, where a packet takes several descriptors and DMA mapping can fail. */
module IgbTxRing {
  import opened Common
  import opened Cyclic

  /** A DMA mapping: its handle, which is not 0, its length, and which of the two unmap calls it needs. */
  datatype Mapping = Mapping(dma: nat, length: nat, page: bool)

  datatype DmaEvent = Mapped(m: Mapping) | Unmapped(m: Mapping)

  /** struct igb_buffer, without time stamps and statistics */
  datatype Buffer = Buffer(dma: nat, length: nat, page: bool, skb: Option<nat>, watch: nat)

  /** A descriptor; status is the word that the device writes back, olinfo_status or mss_l4len_idx before that. */
  datatype Desc = Desc(context: bool, addr: nat, length: nat, eop: bool, status: bv32)

  /** An skb: the length of its head and of its fragments, and what else goes into the descriptors. */
  datatype Skb = Skb(id: nat, hlen: nat, frags: seq<nat>, gsoSize: bv32, macLen: bv32, ipLen: bv32, l4len: bv32,
                     len: bv32, ipv4: bool, vlan: bool, partial: bool)

  /** What skb_is_gso and igb_tso_adv answer. */
  datatype Gso = NoGso | Gso | GsoError

  /** A packet handed to the device: its context descriptor, if it has one, its mapped pieces, and if it was sent;
      word is what was written to the status of the context descriptor, olinfo to that of the others. */
  datatype Packet =
    Packet(skb: nat, context: bool, maps: seq<Mapping>, done: bool, word: Option<bv32>, olinfo: bv32)
  {
    ghost predicate Valid() {
      maps != [] && forall j | 0 <= j < |maps| :: maps[j].dma > 0
    }

    function Len(): nat {
      |maps| + if context then 1 else 0
    }
  }

  const DD: bv32 := 1

  predicate Done(status: bv32) {
    status & DD != 0
  }

  /** mss_l4len_idx of igb_tso_adv and igb_tx_csum_adv */
  function ContextWord(mss: bv32, l4len: bv32, regIdx: bv32): bv32 {
    (mss << 16) | (l4len << 8) | (regIdx << 4)
  }

  /** olinfo_status of igb_tx_queue_adv */
  function OlInfo(popts: bv32, regIdx: bv32, paylen: bv32): bv32 {
    (popts << 8) | (regIdx << 4) | (paylen << 14)
  }

  lemma WordsNotDone(a: bv32, b: bv32, c: bv32)
    ensures !Done(ContextWord(a, b, c)) && !Done(OlInfo(a, b, c)) && !Done(0)
  {
  }

  /** The word of the context descriptor, if it is written: igb_tx_csum_adv does so only for the 82575. */
  function WordOf(gso: Gso, skb: Skb, ctxIdx: bool, regIdx: bv32): Option<bv32> {
    if gso == Gso then Some(ContextWord(skb.gsoSize, skb.l4len, if ctxIdx then regIdx else 0))
    else if ctxIdx && (skb.partial || skb.vlan) then Some(ContextWord(0, 0, regIdx))
    else None
  }

  const POPTS_IXSM: bv32 := 1
  const POPTS_TXSM: bv32 := 2

  /** hdr_len is a u8. */
  function PayLen(gso: Gso, skb: Skb): bv32 {
    if gso == Gso then skb.len - (skb.l4len + skb.macLen + skb.ipLen) & 0xFF else skb.len
  }

  function OlInfoOf(gso: Gso, skb: Skb, ctxIdx: bool, regIdx: bv32): bv32 {
    OlInfo(
      if gso == Gso then if skb.ipv4 then POPTS_TXSM | POPTS_IXSM else POPTS_TXSM
      else if skb.partial then POPTS_TXSM else 0,
      if ctxIdx && (gso == Gso || skb.partial || skb.vlan) then regIdx else 0,
      PayLen(gso, skb))
  }

  /** The values fit the fields of the descriptors. */
  predicate Fits(gso: Gso, skb: Skb, regIdx: bv32) {
    skb.gsoSize < 0x1_0000 && skb.l4len < 0x100 && regIdx < 0x10 && PayLen(gso, skb) < 0x4_0000
  }

  /** Where the device looks in the word of a context descriptor: MSS, L4LEN and IDX. */
  predicate ContextFields(word: bv32, mss: bv32, l4len: bv32, idx: bv32) {
    word >> 16 == mss && (word >> 8) & 0xFF == l4len && (word >> 4) & 0xF == idx && word & 0xF == 0
  }

  /** Where the device looks in the olinfo_status of a data descriptor: PAYLEN, POPTS and IDX. */
  predicate DataFields(word: bv32, paylen: bv32, popts: bv32, idx: bv32) {
    word >> 14 == paylen && (word >> 8) & 0x3F == popts && (word >> 4) & 0xF == idx && word & 0xF == 0
  }

  lemma ContextWordFields(mss: bv32, l4len: bv32, regIdx: bv32)
    requires mss < 0x1_0000 && l4len < 0x100 && regIdx < 0x10
    ensures ContextFields(ContextWord(mss, l4len, regIdx), mss, l4len, regIdx)
  {
  }

  lemma OlInfoFields(popts: bv32, regIdx: bv32, paylen: bv32)
    requires popts < 0x40 && regIdx < 0x10 && paylen < 0x4_0000
    ensures DataFields(OlInfo(popts, regIdx, paylen), paylen, popts, regIdx)
  {
    LowParts(popts, regIdx, paylen);
    HighPart(popts, regIdx, paylen);
  }

  lemma LowParts(popts: bv32, regIdx: bv32, paylen: bv32)
    requires popts < 0x40 && regIdx < 0x10
    ensures var w := (popts << 8) | (regIdx << 4) | (paylen << 14);
            (w >> 8) & 0x3F == popts && (w >> 4) & 0xF == regIdx && w & 0xF == 0
  {
  }

  lemma HighPart(popts: bv32, regIdx: bv32, paylen: bv32)
    requires popts < 0x40 && regIdx < 0x10 && paylen < 0x4_0000
    ensures ((popts << 8) | (regIdx << 4) | (paylen << 14)) >> 14 == paylen
  {
  }

  /** What the device reads from the descriptors of a packet. */
  ghost predicate HasFields(word: Option<bv32>, olinfo: bv32, gso: Gso, skb: Skb, ctxIdx: bool, regIdx: bv32,
                            paylen: bv32) {
    var idx := if ctxIdx then regIdx else 0;
    && (gso == Gso ==> word.Some? && ContextFields(word.value, skb.gsoSize, skb.l4len, idx))
    && (gso != Gso && ctxIdx && (skb.partial || skb.vlan) ==> word.Some? && ContextFields(word.value, 0, 0, regIdx))
    && (gso == Gso && skb.ipv4 ==> DataFields(olinfo, paylen, 3, idx))
    && (gso == Gso && !skb.ipv4 ==> DataFields(olinfo, paylen, 2, idx))
    && (gso != Gso && skb.partial ==> DataFields(olinfo, paylen, 2, idx))
    && (gso != Gso && !skb.partial ==> DataFields(olinfo, paylen, 0, if skb.vlan then idx else 0))
  }

  lemma WordsHaveFields(gso: Gso, skb: Skb, ctxIdx: bool, regIdx: bv32)
    requires Fits(gso, skb, regIdx)
    ensures HasFields(WordOf(gso, skb, ctxIdx, regIdx), OlInfoOf(gso, skb, ctxIdx, regIdx), gso, skb, ctxIdx, regIdx,
                      PayLen(gso, skb))
  {
    hide PayLen, ContextWord, OlInfo, ContextFields, DataFields;
    ContextWordFields(skb.gsoSize, skb.l4len, if ctxIdx then regIdx else 0);
    ContextWordFields(0, 0, if ctxIdx then regIdx else 0);
    var popts := if gso == Gso then if skb.ipv4 then POPTS_TXSM | POPTS_IXSM else POPTS_TXSM
                 else if skb.partial then POPTS_TXSM else 0;
    OlInfoFields(popts, if ctxIdx && (gso == Gso || skb.partial || skb.vlan) then regIdx else 0, PayLen(gso, skb));
  }

  /** The packet is this skb with its pieces mapped at these handles, and its words tell the device what it asks for. */
  ghost predicate Carries(p: Packet, skb: Skb, gso: Gso, handles: Handles, ctxIdx: bool, regIdx: bv32) {
    && p.skb == skb.id && !p.done && p.context == (gso == Gso || skb.partial || skb.vlan)
    && |p.maps| == |handles| == 1 + |skb.frags|
    && (forall j | 0 <= j < |handles| ::
          && handles[j].Some?
          && p.maps[j] == Mapping(handles[j].value, if j == 0 then skb.hlen else skb.frags[j - 1], j > 0))
    && (Fits(gso, skb, regIdx) ==>
          HasFields(p.word, p.olinfo, gso, skb, ctxIdx, regIdx,
                    if gso == Gso then skb.len - (skb.l4len + skb.macLen + skb.ipLen) & 0xFF else skb.len))
  }

  lemma WordsCarry(skb: Skb, gso: Gso, handles: Handles, ctxIdx: bool, regIdx: bv32)
    requires |handles| == 1 + |skb.frags| && |Made(skb, handles, |handles|)| == |handles|
    ensures var made := Made(skb, handles, |handles|);
            var context := gso == Gso || skb.partial || skb.vlan;
            Carries(Packet(skb.id, context, made, false, WordOf(gso, skb, ctxIdx, regIdx),
                           OlInfoOf(gso, skb, ctxIdx, regIdx)), skb, gso, handles, ctxIdx, regIdx)
  {
    hide HasFields, Fits, WordOf, OlInfoOf;
    if Fits(gso, skb, regIdx) { WordsHaveFields(gso, skb, ctxIdx, regIdx); }
  }

  lemma WordOfNotDone(gso: Gso, skb: Skb, ctxIdx: bool, regIdx: bv32)
    ensures WordOf(gso, skb, ctxIdx, regIdx).Some? ==> !Done(WordOf(gso, skb, ctxIdx, regIdx).value)
    ensures !Done(OlInfoOf(gso, skb, ctxIdx, regIdx))
  {
    hide ContextWord, OlInfo, Done;
    var idx := if ctxIdx then regIdx else 0;
    WordsNotDone(skb.gsoSize, skb.l4len, idx);
    WordsNotDone(0, 0, regIdx);
    var popts := if gso == Gso then if skb.ipv4 then POPTS_TXSM | POPTS_IXSM else POPTS_TXSM
                 else if skb.partial then POPTS_TXSM else 0;
    WordsNotDone(popts, if ctxIdx && (gso == Gso || skb.partial || skb.vlan) then regIdx else 0, PayLen(gso, skb));
  }

  // ---------- what the window of the ring holds ----------

  /** What one descriptor of the window is for; span is the distance from a packet's first to its last. */
  datatype Slot =
    Slot(mapping: Option<Mapping>, skb: Option<nat>, span: Option<nat>, eop: bool, done: bool, word: Option<bv32>)

  function SlotOf(p: Packet, j: nat): Slot
    requires p.Valid() && j < p.Len()
  {
    Slot(
      if !p.context then Some(p.maps[j]) else if j == 0 then None else Some(p.maps[j - 1]),
      if j == p.Len() - 1 then Some(p.skb) else None,
      if j == 0 then Some(p.Len() - 1) else None,
      j == p.Len() - 1,
      j == p.Len() - 1 && p.done,
      if p.context && j == 0 then p.word else Some(p.olinfo))
  }

  ghost function PacketSlots(p: Packet): (s: seq<Slot>)
    requires p.Valid()
    ensures |s| == p.Len()
  {
    seq(p.Len(), j requires 0 <= j < p.Len() => SlotOf(p, j))
  }

  ghost predicate AllValid(flight: seq<Packet>) {
    forall k | 0 <= k < |flight| :: flight[k].Valid()
  }

  ghost function Flat(flight: seq<Packet>): seq<Slot>
    requires AllValid(flight)
  {
    if flight == [] then [] else PacketSlots(flight[0]) + Flat(flight[1..])
  }

  lemma {:induction false} FlatSnoc(flight: seq<Packet>, p: Packet)
    requires AllValid(flight) && p.Valid()
    ensures AllValid(flight + [p]) && Flat(flight + [p]) == Flat(flight) + PacketSlots(p)
  {
    hide Packet.Valid, PacketSlots;
    if flight == [] {
      assert flight + [p] == [p];
      assert Flat([p]) == PacketSlots(p) + Flat([p][1..]);
    } else {
      assert (flight + [p])[1..] == flight[1..] + [p];
      FlatSnoc(flight[1..], p);
    }
  }

  predicate BufferIs(b: Buffer, s: Slot, i: nat, size: nat)
    requires i < size
  {
    && b.skb == s.skb
    && (match s.mapping
        case Some(m) => b.dma == m.dma && b.length == m.length && b.page == m.page && m.dma > 0
        case None => b.dma == 0 && !b.page)
    && (s.span.Some? ==> s.span.value < size && b.watch == At(i, s.span.value, size))
  }

  predicate Vacant(b: Buffer) {
    b.dma == 0 && b.skb == None && !b.page
  }

  /** The buffers from base on are those of the slots, and all others are vacant. */
  ghost predicate Buffers(bufs: seq<Buffer>, base: nat, slots: seq<Slot>) {
    && base < |bufs| && |slots| < |bufs|
    && forall i {:trigger bufs[i]} | 0 <= i < |bufs| ::
         && bufs[i].watch < |bufs|
         && if Off(base, i, |bufs|) < |slots| then BufferIs(bufs[i], slots[Off(base, i, |bufs|)], i, |bufs|)
            else Vacant(bufs[i])
  }

  predicate DescIs(d: Desc, s: Slot) {
    && d.context == s.mapping.None?
    && (s.mapping.Some? ==> d.addr == s.mapping.value.dma && d.length == s.mapping.value.length && d.eop == s.eop)
    && (Done(d.status) <==> s.done)
    && (!s.done && s.word.Some? ==> d.status == s.word.value)
  }

  /** The descriptors from base on are those of the slots; DD is on the last ones of finished packets only. */
  ghost predicate Descs(desc: seq<Desc>, base: nat, slots: seq<Slot>) {
    && base < |desc| && |slots| < |desc|
    && forall i {:trigger desc[i]} | 0 <= i < |desc| ::
         if Off(base, i, |desc|) < |slots| then DescIs(desc[i], slots[Off(base, i, |desc|)])
         else !Done(desc[i].status)
  }

  lemma {:induction false} PushBuffer(bufs: seq<Buffer>, base: nat, slots: seq<Slot>, b: Buffer, s: Slot)
    requires Buffers(bufs, base, slots) && |slots| + 1 < |bufs| && b.watch < |bufs|
    requires BufferIs(b, s, At(base, |slots|, |bufs|), |bufs|)
    ensures Buffers(bufs[At(base, |slots|, |bufs|) := b], base, slots + [s])
  {
    hide BufferIs;
  }

  lemma {:induction false} SetBuffer(bufs: seq<Buffer>, base: nat, slots: seq<Slot>, k: nat, b: Buffer, s: Slot)
    requires Buffers(bufs, base, slots) && k < |slots| && b.watch < |bufs|
    requires BufferIs(b, s, At(base, k, |bufs|), |bufs|)
    ensures Buffers(bufs[At(base, k, |bufs|) := b], base, slots[k := s])
  {
    hide BufferIs;
  }

  lemma {:induction false} DropBuffer(bufs: seq<Buffer>, base: nat, slots: seq<Slot>, b: Buffer)
    requires Buffers(bufs, base, slots) && slots != [] && b.watch < |bufs| && Vacant(b)
    ensures Buffers(bufs[At(base, |slots| - 1, |bufs|) := b], base, slots[..|slots| - 1])
  {
    hide BufferIs;
  }

  lemma {:induction false} PopBuffer(bufs: seq<Buffer>, base: nat, slots: seq<Slot>, b: Buffer)
    requires Buffers(bufs, base, slots) && slots != [] && b.watch < |bufs| && Vacant(b)
    ensures Buffers(bufs[base := b], Next(base, |bufs|), slots[1..])
  {
    hide BufferIs;
  }

  lemma {:induction false} PushDesc(desc: seq<Desc>, base: nat, slots: seq<Slot>, d: Desc, s: Slot)
    requires Descs(desc, base, slots) && |slots| + 1 < |desc| && DescIs(d, s)
    ensures Descs(desc[At(base, |slots|, |desc|) := d], base, slots + [s])
  {
    hide DescIs, Done;
  }

  lemma {:induction false} SetDesc(desc: seq<Desc>, base: nat, slots: seq<Slot>, k: nat, d: Desc, s: Slot)
    requires Descs(desc, base, slots) && k < |slots| && DescIs(d, s)
    ensures Descs(desc[At(base, k, |desc|) := d], base, slots[k := s])
  {
    hide DescIs, Done;
  }

  lemma {:induction false} PopDesc(desc: seq<Desc>, base: nat, slots: seq<Slot>, d: Desc)
    requires Descs(desc, base, slots) && slots != [] && !Done(d.status)
    ensures Descs(desc[base := d], Next(base, |desc|), slots[1..])
  {
    hide DescIs, Done;
  }

  // ---------- the history of DMA mappings ----------

  function MappedAll(ms: seq<Mapping>): seq<DmaEvent> {
    seq(|ms|, j requires 0 <= j < |ms| => Mapped(ms[j]))
  }

  function UnmappedAll(ms: seq<Mapping>): seq<DmaEvent> {
    seq(|ms|, j requires 0 <= j < |ms| => Unmapped(ms[j]))
  }

  function Reversed(ms: seq<Mapping>): (r: seq<Mapping>)
    ensures |r| == |ms|
  {
    seq(|ms|, j requires 0 <= j < |ms| => ms[|ms| - 1 - j])
  }

  /** Only live mappings were ever unmapped, and live is what is left. */
  ghost predicate Balanced(log: seq<DmaEvent>, live: multiset<Mapping>)
    decreases |log|
  {
    if log == [] then live == multiset{}
    else
      var init := log[..|log| - 1];
      match log[|log| - 1]
      case Mapped(m) => m in live && Balanced(init, live - multiset{m})
      case Unmapped(m) => Balanced(init, live + multiset{m})
  }

  lemma BalancedMap(log: seq<DmaEvent>, live: multiset<Mapping>, m: Mapping)
    requires Balanced(log, live)
    ensures Balanced(log + [Mapped(m)], live + multiset{m})
  {
    assert (log + [Mapped(m)])[..|log|] == log;
    assert live + multiset{m} - multiset{m} == live;
  }

  lemma BalancedUnmap(log: seq<DmaEvent>, live: multiset<Mapping>, m: Mapping)
    requires Balanced(log, live + multiset{m})
    ensures Balanced(log + [Unmapped(m)], live)
  {
    assert (log + [Unmapped(m)])[..|log|] == log;
  }

  lemma {:induction false} BalancedMaps(log: seq<DmaEvent>, live: multiset<Mapping>, ms: seq<Mapping>)
    requires Balanced(log, live)
    ensures Balanced(log + MappedAll(ms), live + multiset(ms))
    decreases |ms|
  {
    hide Balanced;
    if ms == [] {
      assert log + MappedAll(ms) == log && live + multiset(ms) == live;
    } else {
      var m, rest := ms[0], ms[1..];
      assert ms == [m] + rest;
      BalancedMap(log, live, m);
      BalancedMaps(log + [Mapped(m)], live + multiset{m}, rest);
      assert log + MappedAll(ms) == log + [Mapped(m)] + MappedAll(rest);
      assert live + multiset(ms) == live + multiset{m} + multiset(rest);
    }
  }

  lemma {:induction false} BalancedUnmaps(log: seq<DmaEvent>, live: multiset<Mapping>, ms: seq<Mapping>)
    requires Balanced(log, live + multiset(ms))
    ensures Balanced(log + UnmappedAll(ms), live)
    decreases |ms|
  {
    hide Balanced;
    if ms == [] {
      assert log + UnmappedAll(ms) == log && live + multiset(ms) == live;
    } else {
      var m, rest := ms[0], ms[1..];
      assert ms == [m] + rest;
      assert live + multiset(ms) == live + multiset(rest) + multiset{m};
      BalancedUnmap(log, live + multiset(rest), m);
      BalancedUnmaps(log + [Unmapped(m)], live, rest);
      assert log + UnmappedAll(ms) == log + [Unmapped(m)] + UnmappedAll(rest);
    }
  }

  lemma {:induction false} ReversedMultiset(ms: seq<Mapping>)
    ensures multiset(Reversed(ms)) == multiset(ms)
  {
    if ms != [] {
      var init, m := ms[..|ms| - 1], ms[|ms| - 1];
      ReversedMultiset(init);
      assert ms == init + [m];
      assert Reversed(ms) == [m] + Reversed(init);
    }
  }

  /** The mappings of all packets in flight. */
  function AllMaps(flight: seq<Packet>): multiset<Mapping> {
    if flight == [] then multiset{} else multiset(flight[0].maps) + AllMaps(flight[1..])
  }

  lemma {:induction false} AllMapsSnoc(flight: seq<Packet>, p: Packet)
    ensures AllMaps(flight + [p]) == AllMaps(flight) + multiset(p.maps)
  {
    if flight == [] {
      assert flight + [p] == [p] && [p][1..] == [];
    } else {
      assert (flight + [p])[1..] == flight[1..] + [p];
      AllMapsSnoc(flight[1..], p);
    }
  }

  function Skbs(flight: seq<Packet>): (s: seq<nat>)
    ensures |s| == |flight|
  {
    seq(|flight|, k requires 0 <= k < |flight| => flight[k].skb)
  }

  // ---------- mapping one packet ----------

  /** What the mapping calls for the head and the fragments return; None is a mapping error. */
  type Handles = seq<Option<nat>>

  ghost predicate HandlesFor(skb: Skb, handles: Handles) {
    |handles| == 1 + |skb.frags| && forall j | 0 <= j < |handles| && handles[j].Some? :: handles[j].value > 0
  }

  function PieceOf(skb: Skb, handle: nat, j: nat): Mapping
    requires j <= |skb.frags|
  {
    Mapping(handle, if j == 0 then skb.hlen else skb.frags[j - 1], j > 0)
  }

  /** The mappings made before the first error. */
  function Made(skb: Skb, handles: Handles, j: nat): (ms: seq<Mapping>)
    requires j <= |handles| == 1 + |skb.frags|
    ensures |ms| <= j && forall k | 0 <= k < |ms| :: handles[k].Some? && ms[k] == PieceOf(skb, handles[k].value, k)
    ensures |ms| < j ==> handles[|ms|].None?
  {
    if j == 0 then []
    else
      var ms := Made(skb, handles, j - 1);
      if |ms| == j - 1 && handles[j - 1].Some? then ms + [PieceOf(skb, handles[j - 1].value, j - 1)] else ms
  }

  /** A piece that is mapped while the packet is not complete yet. */
  function Tentative(m: Option<Mapping>, word: Option<bv32>): Slot {
    Slot(m, None, None, false, false, word)
  }

  ghost function TentativeAll(ms: seq<Mapping>, olinfo: bv32): (s: seq<Slot>)
    ensures |s| == |ms|
  {
    seq(|ms|, j requires 0 <= j < |ms| => Tentative(Some(ms[j]), Some(olinfo)))
  }

  ghost function ContextSlots(context: bool, word: Option<bv32>): seq<Slot> {
    if context then [Tentative(None, word)] else []
  }

  class TxRing {
    const count: nat
    const ctxIdx: bool             // IGB_RING_FLAG_TX_CTX_IDX
    const regIdx: bv32
    var nextToUse: nat
    var nextToClean: nat
    const bufs: array<Buffer>
    const desc: array<Desc>
    ghost var flight: seq<Packet>
    ghost var log: seq<DmaEvent>
    ghost var accepted: seq<nat>   // skbs of the packets handed to the device
    ghost var cleaned: seq<nat>    // skbs that cleaning has freed
    ghost var failed: seq<nat>     // skbs that transmitting has freed

    ghost predicate Shape()
      reads this
    {
      count == bufs.Length == desc.Length && nextToUse < count && nextToClean < count && bufs as object != desc
    }

    ghost predicate Valid()
      reads this, bufs, desc
    {
      && Shape() && AllValid(flight)
      && Buffers(bufs[..], nextToClean, Flat(flight))
      && Descs(desc[..], nextToClean, Flat(flight))
      && Off(nextToClean, nextToUse, count) == |Flat(flight)|
      && Balanced(log, AllMaps(flight))
      && accepted == cleaned + Skbs(flight)
    }

    /** A ring of zeroed buffers and descriptors */
    constructor (n: nat, ctx: bool, idx: bv32)
      requires n > 0
      ensures Valid() && count == n && ctxIdx == ctx && regIdx == idx && flight == [] && nextToUse == nextToClean == 0
      ensures log == [] && accepted == cleaned == failed == []
    {
      count, ctxIdx, regIdx, nextToUse, nextToClean := n, ctx, idx, 0, 0;
      bufs := new Buffer[n](_ => Buffer(0, 0, false, None, 0));
      desc := new Desc[n](_ => Desc(false, 0, 0, false, 0));
      flight, log, accepted, cleaned, failed := [], [], [], [], [];
    }

    /** igb_desc_unused */
    function DescUnused(): (n: int)
      requires Shape()
      reads this
      ensures n == count - 1 - Off(nextToClean, nextToUse, count)
    {
      if nextToClean > nextToUse then nextToClean - nextToUse - 1 else count + nextToClean - nextToUse - 1
    }

    /** igb_unmappingand_free_tx_resource */
    method UnmapAndFree(i: nat)
      requires i < bufs.Length && bufs[i].watch < bufs.Length
      modifies bufs, this`log, this`cleaned
      ensures bufs[..] == old(bufs[..])[i := Buffer(0, 0, false, None, 0)]
      ensures var b := old(bufs[i]);
              && log == old(log) + (if b.dma != 0 then [Unmapped(Mapping(b.dma, b.length, b.page))] else [])
              && cleaned == old(cleaned) + (if b.skb.Some? then [b.skb.value] else [])
    {
      var b := bufs[i];
      if b.dma != 0 {
        log := log + [Unmapped(Mapping(b.dma, b.length, b.page))];
        bufs[i] := bufs[i].(dma := 0);
      }
      if b.skb.Some? {
        cleaned := cleaned + [b.skb.value];
        bufs[i] := bufs[i].(skb := None);
      }
      bufs[i] := bufs[i].(length := 0, watch := 0, page := false);
    }

    /** The part that igb_tso_adv and igb_tx_csum_adv have in common; word is mss_l4len_idx, if they write it. */
    method WriteContext(word: Option<bv32>, ghost slots: seq<Slot>)
      requires Shape() && Buffers(bufs[..], nextToClean, slots) && Descs(desc[..], nextToClean, slots)
      requires Off(nextToClean, nextToUse, count) == |slots| && |slots| + 1 < count
      requires word.Some? ==> !Done(word.value)
      modifies bufs, desc, this`nextToUse
      ensures Shape() && nextToUse == Next(old(nextToUse), count)
      ensures Buffers(bufs[..], nextToClean, slots + [Tentative(None, word)])
      ensures Descs(desc[..], nextToClean, slots + [Tentative(None, word)])
    {
      hide Buffers, Descs, Done;
      var i := nextToUse;
      OutsideBuffer(bufs[..], nextToClean, slots, i);
      OutsideNotDone(desc[..], nextToClean, slots, i);
      var b := bufs[i].(watch := i, dma := 0);
      PushBuffer(bufs[..], nextToClean, slots, b, Tentative(None, word));
      bufs[i] := b;
      var d := Desc(true, 0, 0, false, if word.Some? then word.value else desc[i].status);
      PushDesc(desc[..], nextToClean, slots, d, Tentative(None, word));
      desc[i] := d;
      i := i + 1;
      if i == count { i := 0; }
      nextToUse := i;
    }

    /** One piece of a packet is mapped, with handle h. */
    method MapPiece(skb: Skb, i: nat, k: nat, h: nat, ghost olinfo: bv32, ghost slots: seq<Slot>)
      requires Shape() && Buffers(bufs[..], nextToClean, slots) && |slots| + 1 < count
      requires i == At(nextToClean, |slots|, count) && k <= |skb.frags| && h > 0
      modifies bufs, this`log
      ensures log == old(log) + [Mapped(PieceOf(skb, h, k))]
      ensures Buffers(bufs[..], nextToClean, slots + [Tentative(Some(PieceOf(skb, h, k)), Some(olinfo))])
    {
      hide Buffers, BufferIs, Vacant;
      OutsideBuffer(bufs[..], nextToClean, slots, i);
      var b := bufs[i].(length := if k == 0 then skb.hlen else skb.frags[k - 1], watch := i, dma := h);
      if k > 0 { b := b.(page := true); }
      PieceBuffer(bufs[i], b, skb, h, k, i, count, olinfo);
      PushBuffer(bufs[..], nextToClean, slots, b, Tentative(Some(PieceOf(skb, h, k)), Some(olinfo)));
      bufs[i] := b;
      log := log + [Mapped(PieceOf(skb, h, k))];
    }

    /** The last two writes, to the buffers of the last piece and of the first descriptor. */
    method MapComplete(id: nat, first: nat, i: nat, ghost slots: seq<Slot>, ghost p: Packet)
      requires Shape() && p.Valid() && !p.done && p.skb == id && |slots| + p.Len() < count
      requires Buffers(bufs[..], nextToClean, slots + ContextSlots(p.context, p.word) + TentativeAll(p.maps, p.olinfo))
      requires first == At(nextToClean, |slots|, count) && i == At(nextToClean, |slots| + p.Len() - 1, count)
      modifies bufs
      ensures Buffers(bufs[..], nextToClean, slots + PacketSlots(p))
    {
      hide Buffers, PacketSlots, TentativeAll, Packet.Valid;
      Complete(bufs[..], nextToClean, slots, p);
      bufs[i] := bufs[i].(skb := Some(id));
      bufs[first] := bufs[first].(watch := i);
    }

    /** The writes to the buffer whose piece could not be mapped. */
    method MapFails(i: nat, ghost slots: seq<Slot>)
      requires Shape() && Buffers(bufs[..], nextToClean, slots) && |slots| < count
      requires i == At(nextToClean, |slots|, count)
      modifies bufs
      ensures Buffers(bufs[..], nextToClean, slots)
    {
      hide Buffers, BufferIs, Vacant;
      OutsideBuffer(bufs[..], nextToClean, slots, i);
      EmptyVacant(bufs[i]);
      OutsideStays(bufs[..], nextToClean, slots, i, Buffer(0, 0, false, None, 0));
      bufs[i] := bufs[i].(length := 0, watch := 0, page := false, dma := 0);
      assert bufs[i] == Buffer(0, 0, false, None, 0);
    }

    /**
     * igb_tx_mappingadv. At any mapping error it unmaps exactly what it had mapped and leaves the buffers as before.
     */
    method MapAdv(skb: Skb, first: nat, handles: Handles, context: bool, ghost word: Option<bv32>,
                  ghost olinfo: bv32, ghost slots: seq<Slot>)
      returns (n: nat)
      requires Shape() && HandlesFor(skb, handles)
      requires Buffers(bufs[..], nextToClean, slots + ContextSlots(context, word))
      requires first == At(nextToClean, |slots|, count)
      requires |slots + ContextSlots(context, word)| + 1 + |skb.frags| < count
      requires Off(nextToClean, nextToUse, count) == |slots + ContextSlots(context, word)|
      modifies bufs, this`log, this`cleaned
      ensures cleaned == old(cleaned)
      ensures var ms := Made(skb, handles, |handles|);
              if |ms| == |handles| then
                && n == |handles| && log == old(log) + MappedAll(ms)
                && Packet(skb.id, context, ms, false, word, olinfo).Valid()
                && Buffers(bufs[..], nextToClean, slots + PacketSlots(Packet(skb.id, context, ms, false, word, olinfo)))
              else
                && n == 0 && log == old(log) + (MappedAll(ms) + UnmappedAll(Reversed(ms)))
                && Buffers(bufs[..], nextToClean, slots + ContextSlots(context, word))
    {
      hide Buffers, Balanced, MappedAll, UnmappedAll, Reversed, PacketSlots, Made, TentativeAll, Packet.Valid,
           PieceOf, BufferIs, Vacant;
      ghost var base := slots + ContextSlots(context, word);
      var i := nextToUse;
      var k: nat := 0;
      n := 0;
      assert MappedAll([]) == [] by { MappedNone(); }
      MadeNone(skb, handles, olinfo);
      assert base + TentativeAll([], olinfo) == base;
      while true
        invariant k <= |skb.frags| && n == k && i == At(nextToClean, |base| + k, count)
        invariant |Made(skb, handles, k)| == k && cleaned == old(cleaned)
        invariant log == old(log) + MappedAll(Made(skb, handles, k))
        invariant Buffers(bufs[..], nextToClean, base + TentativeAll(Made(skb, handles, k), olinfo))
        decreases |skb.frags| - k
      {
        ghost var ms := Made(skb, handles, k);
        if handles[k].None? {
          MadeStops(skb, handles, k);
          MapFails(i, base + TentativeAll(ms, olinfo));
          n := Rollback(n, i, olinfo, base, ms);
          assert old(log) + MappedAll(ms) + UnmappedAll(Reversed(ms)) ==
                 old(log) + (MappedAll(ms) + UnmappedAll(Reversed(ms)));
          return;
        }
        ghost var m := PieceOf(skb, handles[k].value, k);
        MapPiece(skb, i, k, handles[k].value, olinfo, base + TentativeAll(ms, olinfo));
        MadeMore(skb, handles, k);
        TentativeMore(base, ms, m, olinfo);
        MappedMore(ms, m);
        assert old(log) + MappedAll(ms) + [Mapped(m)] == old(log) + (MappedAll(ms) + [Mapped(m)]);
        if k == |skb.frags| { break; }
        k := k + 1;
        n := n + 1;
        i := i + 1;
        if i == count { i := 0; }
      }
      MadeValid(skb, handles, context, word, olinfo);
      MapComplete(skb.id, first, i, slots, Packet(skb.id, context, Made(skb, handles, |handles|), false, word, olinfo));
      n := n + 1;
    }

    /** The loop at dma_error: i is the buffer that failed, and n before it were mapped. */
    method Rollback(n: nat, start: nat, ghost olinfo: bv32, ghost base: seq<Slot>, ghost ms: seq<Mapping>)
      returns (zero: nat)
      requires Shape() && |ms| == n && |base| + n < count && start == At(nextToClean, |base| + n, count)
      requires Buffers(bufs[..], nextToClean, base + TentativeAll(ms, olinfo))
      modifies bufs, this`log, this`cleaned
      ensures zero == 0 && cleaned == old(cleaned)
      ensures Buffers(bufs[..], nextToClean, base)
      ensures log == old(log) + UnmappedAll(Reversed(ms))
    {
      hide Buffers;
      var left: nat, i: nat := n, start;
      assert old(log) + UnmappedAll(Reversed(ms)[..0]) == old(log);
      assert ms[..n] == ms;
      while left > 0
        invariant left <= n && i == At(nextToClean, |base| + left, count) && cleaned == old(cleaned)
        invariant Buffers(bufs[..], nextToClean, base + TentativeAll(ms[..left], olinfo))
        invariant log == old(log) + UnmappedAll(Reversed(ms)[..n - left])
      {
        ghost var slots := base + TentativeAll(ms[..left], olinfo);
        left := left - 1;
        if i == 0 { i := count; }
        i := i - 1;
        InsideBuffer(bufs[..], nextToClean, slots, |slots| - 1);
        DropBuffer(bufs[..], nextToClean, slots, Buffer(0, 0, false, None, 0));
        assert slots[..|slots| - 1] == base + TentativeAll(ms[..left], olinfo);
        UnmapAndFree(i);
        assert Reversed(ms)[..n - left] == Reversed(ms)[..n - left - 1] + [ms[left]];
        assert UnmappedAll(Reversed(ms)[..n - left]) ==
               UnmappedAll(Reversed(ms)[..n - left - 1]) + [Unmapped(ms[left])];
      }
      assert base + TentativeAll(ms[..0], olinfo) == base;
      assert Reversed(ms)[..n] == Reversed(ms);
      zero := 0;
    }

    /** The data descriptor of the k-th mapping of a packet. */
    method WriteData(i: nat, olinfo: bv32, ghost k: nat, ghost slots: seq<Slot>, ghost p: Packet)
      requires Shape() && p.Valid() && k < |p.maps| && !Done(olinfo) && olinfo == p.olinfo && |slots| + p.Len() < count
      requires i == At(nextToClean, |slots + ContextSlots(p.context, p.word)| + k, count)
      requires Buffers(bufs[..], nextToClean, slots + PacketSlots(p))
      requires Descs(desc[..], nextToClean,
                     slots + ContextSlots(p.context, p.word) + TentativeAll(p.maps[..k], p.olinfo))
      modifies desc
      ensures Descs(desc[..], nextToClean,
                    slots + ContextSlots(p.context, p.word) + TentativeAll(p.maps[..k + 1], p.olinfo))
    {
      hide Buffers, Descs, Done, Packet.Valid, PacketSlots;
      ghost var base := slots + ContextSlots(p.context, p.word);
      DataBuffer(bufs[..], nextToClean, slots, p, k);
      var d := Desc(false, bufs[i].dma, bufs[i].length, false, olinfo);
      assert p.maps[..k + 1] == p.maps[..k] + [p.maps[k]];
      TentativeMore(base, p.maps[..k], p.maps[k], p.olinfo);
      PushDesc(desc[..], nextToClean, base + TentativeAll(p.maps[..k], p.olinfo), d,
               Tentative(Some(p.maps[k]), Some(p.olinfo)));
      desc[i] := d;
    }

    /** igb_tx_queue_adv: writes the data descriptors, marks the last one, and moves next_to_use behind it. */
    method QueueAdv(olinfo: bv32, n: nat, ghost slots: seq<Slot>, ghost p: Packet)
      requires Shape() && p.Valid() && !p.done && n == |p.maps| && !Done(olinfo) && olinfo == p.olinfo
      requires Buffers(bufs[..], nextToClean, slots + PacketSlots(p))
      requires Descs(desc[..], nextToClean, slots + ContextSlots(p.context, p.word))
      requires Off(nextToClean, nextToUse, count) == |slots + ContextSlots(p.context, p.word)|
      modifies desc, this`nextToUse
      ensures Shape() && Off(nextToClean, nextToUse, count) == |slots| + p.Len()
      ensures Descs(desc[..], nextToClean, slots + PacketSlots(p))
    {
      hide Buffers, Descs, Done;
      BuffersSize(bufs[..], nextToClean, slots + PacketSlots(p));
      ghost var base := slots + ContextSlots(p.context, p.word);
      var i := nextToUse;
      var last := i;
      var k: nat := 0;
      assert base + TentativeAll(p.maps[..0], p.olinfo) == base;
      while true
        invariant k < n && i == At(nextToClean, |base| + k, count) && nextToUse == old(nextToUse)
        invariant Descs(desc[..], nextToClean, base + TentativeAll(p.maps[..k], p.olinfo))
        decreases n - k
      {
        WriteData(i, olinfo, k, slots, p);
        last := i;
        i := i + 1;
        if i == count { i := 0; }
        k := k + 1;
        if k >= n { break; }
      }
      assert p.maps[..n] == p.maps;
      MarkLast(desc[..], nextToClean, slots, p);
      desc[last] := desc[last].(eop := true);
      nextToUse := i;
    }

    /** The descriptor of igb_tso_adv, or else that of igb_tx_csum_adv, or none. */
    method PutContext(gso: Gso, skb: Skb, ghost word: Option<bv32>, ghost slots: seq<Slot>) returns (context: bool)
      requires Shape() && Buffers(bufs[..], nextToClean, slots) && Descs(desc[..], nextToClean, slots)
      requires Off(nextToClean, nextToUse, count) == |slots| && |slots| + 1 < count
      requires word == WordOf(gso, skb, ctxIdx, regIdx)
      modifies bufs, desc, this`nextToUse
      ensures Shape() && context == (gso == Gso || skb.partial || skb.vlan)
      ensures Off(nextToClean, nextToUse, count) == |slots + ContextSlots(context, word)|
      ensures Buffers(bufs[..], nextToClean, slots + ContextSlots(context, word))
      ensures Descs(desc[..], nextToClean, slots + ContextSlots(context, word))
    {
      hide Buffers, Descs, Done, ContextWord;
      context := gso == Gso || skb.partial || skb.vlan;
      assert slots + ContextSlots(false, word) == slots;
      WordOfNotDone(gso, skb, ctxIdx, regIdx);
      if gso == Gso {
        WriteContext(Some(ContextWord(skb.gsoSize, skb.l4len, if ctxIdx then regIdx else 0)), slots);
      } else if skb.partial || skb.vlan {
        WriteContext(if ctxIdx then Some(ContextWord(0, 0, regIdx)) else None, slots);
      }
    }

    /** igb_xmit_frame_ring_adv */
    method Xmit(skb: Skb, gso: Gso, handles: Handles) returns (busy: bool)
      requires Valid() && HandlesFor(skb, handles)
      modifies this, bufs, desc
      ensures Valid() && nextToClean == old(nextToClean) && cleaned == old(cleaned)
      ensures busy <==> old(DescUnused()) < |skb.frags| + 4
      ensures var made := Made(skb, handles, |handles|);
              if busy then
                Unsent() && failed == old(failed) && log == old(log)
              else if gso == GsoError then
                Unsent() && failed == old(failed) + [skb.id] && log == old(log)
              else if |made| < |handles| then
                && Unsent() && failed == old(failed) + [skb.id]
                && log == old(log) + (MappedAll(made) + UnmappedAll(Reversed(made)))
              else
                && |flight| > 0 && flight[..|flight| - 1] == old(flight)
                && Carries(flight[|flight| - 1], skb, gso, handles, ctxIdx, regIdx)
                && OnRing(desc[..], old(nextToUse), flight[|flight| - 1])
                && accepted == old(accepted) + [skb.id] && failed == old(failed)
                && log == old(log) + MappedAll(made) && DescUnused() >= 2
    {
      hide Buffers, Descs, Balanced, Done, OlInfoOf, WordOf, MappedAll, UnmappedAll, Reversed, PacketSlots,
           Packet.Valid, Made, Flat, AllMaps, AllValid, Skbs, Carries;
      ghost var slots := Flat(flight);
      if DescUnused() < |skb.frags| + 4 { return true; }
      busy := false;
      var first := nextToUse;
      if gso == GsoError {
        failed := failed + [skb.id];
        return;
      }
      ghost var word := WordOf(gso, skb, ctxIdx, regIdx);
      var olinfo := OlInfoOf(gso, skb, ctxIdx, regIdx);
      WordOfNotDone(gso, skb, ctxIdx, regIdx);
      var context := PutContext(gso, skb, word, slots);
      ghost var made := Made(skb, handles, |handles|);
      var n := MapAdv(skb, first, handles, context, word, olinfo, slots);
      if n == 0 {
        RolledBack(old(log), AllMaps(flight), made);
        DropContext(bufs[..], desc[..], nextToClean, slots, context, word);
        failed := failed + [skb.id];
        nextToUse := first;
        return;
      }
      ghost var p := Packet(skb.id, context, made, false, word, olinfo);
      QueueAdv(olinfo, n, slots, p);
      LastOnRing(desc[..], nextToClean, slots, p);
      WordsCarry(skb, gso, handles, ctxIdx, regIdx);
      OneMore(flight, p, old(log), cleaned);
      flight := flight + [p];
      accepted := accepted + [skb.id];
    }

    /** Nothing was handed to the device, and the ring is as before. */
    twostate predicate Unsent()
      reads this
    {
      flight == old(flight) && accepted == old(accepted) && nextToUse == old(nextToUse)
    }

    /** The device has been given descriptor i, from start to next_to_use, and is to write it back. */
    predicate WithDevice(start: nat, i: nat)
      requires Shape() && start < count
      reads this, desc
    {
      i < count && Off(start, i, count) < Off(start, nextToUse, count) && !desc[i].context && desc[i].eop
    }

    /** The device writes back a descriptor that asked for it. */
    method DeviceDone(i: nat, status: bv32, start: nat, ghost front: seq<Slot>, ghost left: seq<Packet>)
      returns (ghost after: seq<Packet>)
      requires Window(start, front, left) && Done(status)
      modifies desc
      ensures Window(start, front, after) && MoreDone(left, after)
      ensures desc[..] == if !old(WithDevice(start, i)) then old(desc[..])
                          else old(desc[..])[i := old(desc[..])[i].(status := status)]
    {
      hide Buffers, Descs, Done, Flat, AllValid;
      after := left;
      if WithDevice(start, i) {
        ghost var slots, k := front + Flat(left), Off(start, i, count);
        InsideDesc(desc[..], start, slots, k);
        after := Finished(front, left, k);
        InsideBuffer(bufs[..], start, slots, k);
        SetBuffer(bufs[..], start, slots, k, bufs[i], slots[k].(done := true));
        assert bufs[..][i := bufs[i]] == bufs[..];
        SetDesc(desc[..], start, slots, k, desc[i].(status := status), slots[k].(done := true));
        desc[i] := desc[i].(status := status);
      }
    }

    /** The device writes back any of its descriptors. */
    method DeviceInterferes(start: nat, ghost front: seq<Slot>, ghost left: seq<Packet>)
      returns (ghost after: seq<Packet>)
      requires Window(start, front, left)
      modifies desc
      ensures Window(start, front, after) && MoreDone(left, after)
    {
      hide Buffers, Descs, Done, Flat, AllValid;
      after := left;
      var turns: nat := *;
      while turns > 0
        invariant Window(start, front, after) && MoreDone(left, after)
      {
        var i: nat, status: bv32 := *, *;
        if Done(status) {
          ghost var before := after;
          after := DeviceDone(i, status, start, front, before);
          StillMoreDone(left, before, after);
        }
        turns := turns - 1;
      }
    }

    /** What is left of a packet that is being cleaned, and the packets behind it, from start to next_to_use. */
    ghost predicate Window(start: nat, front: seq<Slot>, left: seq<Packet>)
      reads this, bufs, desc
    {
      && Shape() && AllValid(left) && start < count && Off(start, nextToUse, count) == |front + Flat(left)|
      && (forall k | 0 <= k < |front| :: front[k].eop ==> front[k].done)
      && Buffers(bufs[..], start, front + Flat(left)) && Descs(desc[..], start, front + Flat(left))
    }

    /** Between two calls the device can send any packets in flight. */
    method Device()
      requires Valid()
      modifies desc, this`flight
      ensures Valid() && MoreDone(old(flight), flight)
    {
      hide Buffers, Descs, Balanced, AllValid, Flat;
      assert [] + Flat(flight) == Flat(flight);
      flight := DeviceInterferes(nextToClean, [], flight);
      assert [] + Flat(flight) == Flat(flight);
      SameHistory(old(flight), flight);
    }

    /** One turn of the inner loop of igb_clean_tx_irq: the buffer at i is given back, and its descriptor is cleared. */
    method CleanOne(start: nat, ghost p: Packet, n: nat, ghost left: seq<Packet>) returns (i: nat)
      requires p.Valid() && p.done && n < p.Len() && Window(start, PacketSlots(p)[n..], left)
      modifies bufs, desc, this`log, this`cleaned
      ensures i == Next(start, count) && Window(i, PacketSlots(p)[n + 1..], left)
      ensures cleaned == old(cleaned) + SkbAt(p, n) && log == old(log) + EventsAt(p, n)
    {
      hide Buffers, Descs, Done, Packet.Valid, PacketSlots, Flat, AllValid;
      OneCleaned(bufs[..], desc[..], start, p, Flat(left), n);
      UnmapAndFree(start);
      desc[start] := desc[start].(status := 0);
      i := start + 1;
      if i == count { i := 0; }
    }

    /** One turn of the outer loop of igb_clean_tx_irq: the packet at start, up to its last descriptor eop. */
    method CleanPacket(start: nat, eop: nat, ghost p: Packet, ghost left: seq<Packet>)
      returns (i: nat, n: nat, ghost after: seq<Packet>)
      requires p.Valid() && p.done && 0 < p.Len() < count && start < count && Window(start, PacketSlots(p), left)
      requires eop == At(start, p.Len() - 1, count)
      modifies bufs, desc, this`log, this`cleaned
      ensures n == p.Len() && i == At(start, n, count) && Window(i, [], after) && MoreDone(left, after)
      ensures cleaned == old(cleaned) + [p.skb] && log == old(log) + UnmappedAll(p.maps)
    {
      hide Packet.Valid, PacketSlots, EventsOf, SkbsOf, UnmappedAll, Window;
      i, n, after := start, 0, left;
      var finished := false;
      assert PacketSlots(p)[0..] == PacketSlots(p);
      NoEvents(p);
      while !finished
        invariant n <= p.Len() && i == At(start, n, count) && (finished <==> n == p.Len())
        invariant Window(i, PacketSlots(p)[n..], after) && MoreDone(left, after)
        invariant cleaned == old(cleaned) + SkbsOf(p, n) && log == old(log) + EventsOf(p, n)
        decreases p.Len() - n
      {
        finished := i == eop;
        MoreEvents(p, n);
        i := CleanOne(i, p, n, after);
        assert old(log) + EventsOf(p, n) + EventsAt(p, n) == old(log) + (EventsOf(p, n) + EventsAt(p, n));
        assert old(cleaned) + SkbsOf(p, n) + SkbAt(p, n) == old(cleaned) + (SkbsOf(p, n) + SkbAt(p, n));
        n := n + 1;
        ghost var before := after;
        after := DeviceInterferes(i, PacketSlots(p)[n..], before);
        StillMoreDone(left, before, after);
      }
      assert PacketSlots(p)[n..] == [];
      AllEvents(p);
    }

    /** The packet at the front is given back, while the device goes on sending the others. */
    method CleanTurn(start: nat, eop: nat, ghost taken0: seq<Packet>, ghost left0: seq<Packet>,
                     ghost log0: seq<DmaEvent>, ghost cleaned0: seq<nat>, ghost flight0: seq<Packet>)
      returns (i: nat, n: nat, ghost taken: seq<Packet>, ghost left: seq<Packet>)
      requires Shape() && start < count && Window(start, [], left0) && eop < count && eop == bufs[start].watch
      requires Done(desc[eop].status) && History(log, cleaned, log0, cleaned0, flight0, taken0, left0)
      modifies bufs, desc, this`log, this`cleaned
      ensures Shape() && i < count && Window(i, [], left) && |left| < |left0| && bufs[i].watch < count
      ensures n + Off(i, nextToUse, count) == Off(start, nextToUse, count)
      ensures History(log, cleaned, log0, cleaned0, flight0, taken, left)
    {
      hide Window, Packet.Valid, PacketSlots, AllValid, UnmappedAll, Balanced, Flat, Skbs, UnmappedOf, AllMaps, History,
           MoreDone, Done;
      FrontOf(this, start, left0);
      ghost var logK, cleanedK := log, cleaned;
      i, n, left := CleanPacket(start, eop, left0[0], left0[1..]);
      NextHistory(logK, cleanedK, log0, cleaned0, flight0, taken0, left0, left);
      taken := taken0 + [left0[0]];
      ghost var before := left;
      left := DeviceInterferes(i, [], before);
      StillMoreDone(left0[1..], before, left);
      LaterHistory(log, cleaned, log0, cleaned0, flight0, taken, before, left);
      FrontOf(this, i, left);
    }

    /**
     * igb_clean_tx_irq, while the device goes on sending: gives back the packets at the front of the window that the
     * device has finished, all of each and in order, and stops at the first that it has not.
     */
    method CleanTxIrq() returns (all: bool, ghost taken: seq<Packet>)
      requires Valid()
      modifies this`nextToClean, this`flight, this`log, this`cleaned, bufs, desc
      ensures Valid() && all && MoreDone(old(flight), taken + flight)
      ensures cleaned == old(cleaned) + Skbs(taken) && log == old(log) + UnmappedOf(taken)
      ensures forall k | 0 <= k < |taken| :: taken[k].done
      ensures flight != [] ==> !flight[0].done
      ensures forall m: nat {:trigger FirstDone(old(flight), m)} | FirstDone(old(flight), m) :: m <= |taken|
    {
      hide Window, Packet.Valid, PacketSlots, AllValid, UnmappedAll, Balanced, Flat, Skbs, UnmappedOf, AllMaps, History,
           MoreDone;
      StartCleaning(this);
      var i := nextToClean;
      ghost var left := DeviceInterferes(i, [], flight);
      taken := [];
      StartHistory(log, cleaned, flight, left);
      FrontOf(this, i, left);
      var eop := bufs[i].watch;
      var cnt: nat := 0;
      while Done(desc[eop].status) && cnt < count
        invariant Shape() && i < count && Window(i, [], left) && eop < count && eop == bufs[i].watch
        invariant nextToUse == old(nextToUse)
        invariant cnt + Off(i, nextToUse, count) == Off(old(nextToClean), nextToUse, count) < count
        invariant History(log, cleaned, old(log), old(cleaned), old(flight), taken, left)
        decreases |left|
      {
        var n;
        i, n, taken, left := CleanTurn(i, eop, taken, left, old(log), old(cleaned), old(flight));
        cnt := cnt + n;
        eop := bufs[i].watch;
      }
      FrontOf(this, i, left);
      EndCleaning(this, i, left);
      EndHistory(log, cleaned, old(log), old(cleaned), old(flight), taken, left);
      nextToClean := i;
      flight := left;
      all := cnt < count;
    }
  }

  // ---------- what the device and cleaning do to the packets in flight ----------

  /** The same packets, some more of them done. */
  ghost predicate MoreDone(before: seq<Packet>, after: seq<Packet>) {
    |before| == |after| && forall k | 0 <= k < |after| :: after[k] == before[k] || after[k] == before[k].(done := true)
  }

  ghost predicate FirstDone(flight: seq<Packet>, m: nat) {
    m <= |flight| && forall j | 0 <= j < m :: flight[j].done
  }

  lemma StillMoreDone(a: seq<Packet>, b: seq<Packet>, c: seq<Packet>)
    requires MoreDone(a, b) && MoreDone(b, c)
    ensures MoreDone(a, c) && |c| == |a|
  {
  }

  /** Marking the last descriptor of a packet as done is marking that packet. */
  lemma {:induction false} FlatFinished(flight: seq<Packet>, k: nat) returns (after: seq<Packet>)
    requires AllValid(flight) && k < |Flat(flight)| && Flat(flight)[k].eop
    ensures AllValid(after) && MoreDone(flight, after)
    ensures Flat(after) == Flat(flight)[k := Flat(flight)[k].(done := true)]
  {
    hide Packet.Valid, PacketSlots;
    var p, rest := flight[0], flight[1..];
    if k < p.Len() {
      SlotIs(p, k);
      after := [p.(done := true)] + rest;
      SlotsDone(p);
      assert after[1..] == rest;
    } else {
      var rest' := FlatFinished(rest, k - p.Len());
      after := [p] + rest';
      assert after[1..] == rest';
    }
  }

  lemma SlotsDone(p: Packet)
    requires p.Valid()
    ensures p.Len() > 0 && p.(done := true).Valid()
    ensures var l := p.Len() - 1; PacketSlots(p.(done := true)) == PacketSlots(p)[l := PacketSlots(p)[l].(done := true)]
  {
  }

  lemma {:induction false} Finished(front: seq<Slot>, left: seq<Packet>, k: nat) returns (after: seq<Packet>)
    requires AllValid(left) && k < |front + Flat(left)| && (front + Flat(left))[k].eop
    requires forall j | 0 <= j < |front| :: front[j].eop ==> front[j].done
    ensures AllValid(after) && MoreDone(left, after)
    ensures front + Flat(after) == (front + Flat(left))[k := (front + Flat(left))[k].(done := true)]
  {
    hide AllValid, Flat, MoreDone;
    if k < |front| {
      after := left;
      SameMoreDone(left);
    } else {
      after := FlatFinished(left, k - |front|);
    }
  }

  lemma SameMoreDone(left: seq<Packet>)
    ensures MoreDone(left, left)
  {
  }

  /** What unmapping the first n buffers of a packet adds to the log, and which skb it frees. */
  function EventsOf(p: Packet, n: nat): seq<DmaEvent>
    requires n <= p.Len()
  {
    UnmappedAll(p.maps[..if !p.context then n else if n == 0 then 0 else n - 1])
  }

  function SkbsOf(p: Packet, n: nat): seq<nat>
    requires n <= p.Len()
  {
    if n == p.Len() then [p.skb] else []
  }

  function EventsAt(p: Packet, n: nat): seq<DmaEvent>
    requires n < p.Len()
  {
    if p.context && n == 0 then [] else [Unmapped(p.maps[if p.context then n - 1 else n])]
  }

  function SkbAt(p: Packet, n: nat): seq<nat>
    requires n < p.Len()
  {
    if n == p.Len() - 1 then [p.skb] else []
  }

  lemma NoEvents(p: Packet)
    requires p.Len() > 0
    ensures EventsOf(p, 0) == [] && SkbsOf(p, 0) == []
  {
  }

  lemma AllEvents(p: Packet)
    ensures EventsOf(p, p.Len()) == UnmappedAll(p.maps) && SkbsOf(p, p.Len()) == [p.skb]
  {
    assert p.maps[..|p.maps|] == p.maps;
  }

  lemma {:induction false} MoreEvents(p: Packet, n: nat)
    requires n < p.Len()
    ensures EventsOf(p, n + 1) == EventsOf(p, n) + EventsAt(p, n)
    ensures SkbsOf(p, n + 1) == SkbsOf(p, n) + SkbAt(p, n)
  {
  }

  /** One turn of the inner loop. */
  lemma {:induction false} OneCleaned(bufs: seq<Buffer>, desc: seq<Desc>, i: nat, p: Packet, rest: seq<Slot>, n: nat)
    requires p.Valid() && n < p.Len() && |bufs| == |desc|
    requires Buffers(bufs, i, PacketSlots(p)[n..] + rest) && Descs(desc, i, PacketSlots(p)[n..] + rest)
    ensures i < |bufs| && bufs[i].watch < |bufs|
    ensures var b := bufs[i];
            && EventsAt(p, n) == (if b.dma != 0 then [Unmapped(Mapping(b.dma, b.length, b.page))] else [])
            && SkbAt(p, n) == (if b.skb.Some? then [b.skb.value] else [])
    ensures Buffers(bufs[i := Buffer(0, 0, false, None, 0)], Next(i, |bufs|), PacketSlots(p)[n + 1..] + rest)
    ensures Descs(desc[i := desc[i].(status := 0)], Next(i, |bufs|), PacketSlots(p)[n + 1..] + rest)
  {
    hide Buffers, Descs, Done;
    var left := PacketSlots(p)[n..] + rest;
    BuffersSize(bufs, i, left);
    InsideBuffer(bufs, i, left, 0);
    SlotIs(p, n);
    assert left[0] == SlotOf(p, n);
    PopBuffer(bufs, i, left, Buffer(0, 0, false, None, 0));
    NotDoneZero();
    PopDesc(desc, i, left, desc[i].(status := 0));
    assert left[1..] == PacketSlots(p)[n + 1..] + rest;
  }

  /** What was taken so far, and what the log and the freed skbs say about it. */
  ghost predicate History(log: seq<DmaEvent>, cleaned: seq<nat>, log0: seq<DmaEvent>, cleaned0: seq<nat>,
                          flight: seq<Packet>, taken: seq<Packet>, left: seq<Packet>) {
    && MoreDone(flight, taken + left) && (forall k | 0 <= k < |taken| :: taken[k].done)
    && log == log0 + UnmappedOf(taken) && cleaned == cleaned0 + Skbs(taken)
    && Balanced(log, AllMaps(left))
  }

  lemma {:induction false} SameHistory(before: seq<Packet>, after: seq<Packet>)
    requires MoreDone(before, after)
    ensures Skbs(after) == Skbs(before) && AllMaps(after) == AllMaps(before)
  {
    if before != [] { SameHistory(before[1..], after[1..]); }
  }

  lemma {:induction false} StartHistory(log: seq<DmaEvent>, cleaned: seq<nat>, flight: seq<Packet>, left: seq<Packet>)
    requires Balanced(log, AllMaps(flight)) && MoreDone(flight, left)
    ensures History(log, cleaned, log, cleaned, flight, [], left)
  {
    hide Balanced, AllMaps, MoreDone;
    SameHistory(flight, left);
    assert [] + left == left && Skbs([]) == [] && UnmappedOf([]) == [];
  }

  lemma {:induction false} LaterHistory(log: seq<DmaEvent>, cleaned: seq<nat>, log0: seq<DmaEvent>, cleaned0: seq<nat>,
                                        flight: seq<Packet>, taken: seq<Packet>, left: seq<Packet>, later: seq<Packet>)
    requires History(log, cleaned, log0, cleaned0, flight, taken, left) && MoreDone(left, later)
    ensures History(log, cleaned, log0, cleaned0, flight, taken, later)
  {
    hide Balanced, AllMaps, UnmappedOf, Skbs;
    SameHistory(left, later);
  }

  lemma {:induction false} NextHistory(log: seq<DmaEvent>, cleaned: seq<nat>, log0: seq<DmaEvent>, cleaned0: seq<nat>,
                                       flight: seq<Packet>, taken: seq<Packet>, left: seq<Packet>, later: seq<Packet>)
    requires History(log, cleaned, log0, cleaned0, flight, taken, left) && left != [] && left[0].done
    requires MoreDone(left[1..], later)
    ensures History(log + UnmappedAll(left[0].maps), cleaned + [left[0].skb], log0, cleaned0, flight,
                    taken + [left[0]], later)
  {
    hide Balanced, UnmappedAll, MoreDone;
    var p := left[0];
    TakenOne(flight, taken, left, later);
    SameHistory(left[1..], later);
    BalancedUnmaps(log, AllMaps(later), p.maps) by {
      assert AllMaps(left) == AllMaps(left[1..]) + multiset(p.maps);
    }
    assert (taken + [p])[..|taken|] == taken;
    assert log0 + UnmappedOf(taken) + UnmappedAll(p.maps) == log0 + (UnmappedOf(taken) + UnmappedAll(p.maps));
    assert cleaned0 + Skbs(taken) + [p.skb] == cleaned0 + Skbs(taken + [p]);
  }

  lemma TakenOne(flight: seq<Packet>, taken: seq<Packet>, left: seq<Packet>, later: seq<Packet>)
    requires MoreDone(flight, taken + left) && left != [] && MoreDone(left[1..], later)
    ensures MoreDone(flight, taken + [left[0]] + later)
  {
    assert taken + left == taken + [left[0]] + left[1..];
  }

  lemma {:induction false} EndHistory(log: seq<DmaEvent>, cleaned: seq<nat>, log0: seq<DmaEvent>, cleaned0: seq<nat>,
                                      flight: seq<Packet>, taken: seq<Packet>, left: seq<Packet>)
    requires History(log, cleaned, log0, cleaned0, flight, taken, left) && (left != [] ==> !left[0].done)
    ensures MoreDone(flight, taken + left) && (forall k | 0 <= k < |taken| :: taken[k].done)
    ensures log == log0 + UnmappedOf(taken) && cleaned == cleaned0 + Skbs(taken) && Balanced(log, AllMaps(left))
    ensures cleaned0 + Skbs(flight) == cleaned + Skbs(left)
    ensures forall m: nat {:trigger FirstDone(flight, m)} | FirstDone(flight, m) :: m <= |taken|
  {
    hide Balanced, AllMaps, UnmappedOf;
    SameHistory(flight, taken + left);
    assert Skbs(taken + left) == Skbs(taken) + Skbs(left);
    assert left != [] ==> !flight[|taken|].done by {
      assert left != [] ==> (taken + left)[|taken|] == left[0];
    }
  }

  lemma StartCleaning(ring: TxRing)
    requires ring.Valid()
    ensures ring.Window(ring.nextToClean, [], ring.flight) && ring.nextToClean < ring.count
    ensures Off(ring.nextToClean, ring.nextToUse, ring.count) < ring.count
  {
    hide Buffers, Descs, Balanced, Flat, AllValid;
    assert [] + Flat(ring.flight) == Flat(ring.flight);
    BuffersSize(ring.bufs[..], ring.nextToClean, Flat(ring.flight));
  }

  lemma EndCleaning(ring: TxRing, i: nat, left: seq<Packet>)
    requires ring.Window(i, [], left)
    ensures AllValid(left) && Buffers(ring.bufs[..], i, Flat(left)) && Descs(ring.desc[..], i, Flat(left))
    ensures i < ring.count && Off(i, ring.nextToUse, ring.count) == |Flat(left)|
  {
    hide Buffers, Descs, Flat, AllValid;
    assert [] + Flat(left) == Flat(left);
  }

  /** The first buffer of the window names the last descriptor of the packet at the front, which says if it is done. */
  lemma {:induction false} FrontOf(ring: TxRing, i: nat, left: seq<Packet>)
    requires ring.Window(i, [], left)
    ensures i < ring.bufs.Length == ring.desc.Length == ring.count && ring.bufs[i].watch < ring.count
    ensures Done(ring.desc[ring.bufs[i].watch].status) <==> left != [] && left[0].done
    ensures left != [] ==>
              && left[0].Valid() && 0 < left[0].Len() < ring.count
              && ring.bufs[i].watch == At(i, left[0].Len() - 1, ring.count)
              && ring.Window(i, if left[0].done then PacketSlots(left[0]) else [],
                             if left[0].done then left[1..] else left)
              && Off(i, ring.nextToUse, ring.count) >= left[0].Len()
  {
    hide Buffers, Descs, Done, Packet.Valid;
    assert [] + Flat(left) == Flat(left);
    BuffersSize(ring.bufs[..], i, Flat(left));
    WatchInRange(ring.bufs[..], i, Flat(left), i);
    if left != [] {
      var p := left[0];
      LenPositive(p);
      SlotIs(p, 0);
      InsideBuffer(ring.bufs[..], i, Flat(left), 0);
      InsideDesc(ring.desc[..], i, Flat(left), p.Len() - 1);
      SlotIs(p, p.Len() - 1);
      assert PacketSlots(p) + Flat(left[1..]) == Flat(left);
    } else {
      OutsideNotDone(ring.desc[..], i, Flat(left), ring.bufs[i].watch);
    }
  }

  lemma OutsideBuffer(bufs: seq<Buffer>, base: nat, slots: seq<Slot>, i: nat)
    requires Buffers(bufs, base, slots) && i < |bufs| && Off(base, i, |bufs|) >= |slots|
    ensures Vacant(bufs[i])
  {
  }

  lemma OutsideStays(bufs: seq<Buffer>, base: nat, slots: seq<Slot>, i: nat, b: Buffer)
    requires Buffers(bufs, base, slots) && i < |bufs| && Off(base, i, |bufs|) >= |slots|
    requires Vacant(b) && b.watch < |bufs|
    ensures Buffers(bufs[i := b], base, slots)
  {
  }

  lemma InsideBuffer(bufs: seq<Buffer>, base: nat, slots: seq<Slot>, k: nat)
    requires Buffers(bufs, base, slots) && k < |slots|
    ensures var i := At(base, k, |bufs|); BufferIs(bufs[i], slots[k], i, |bufs|) && bufs[i].watch < |bufs|
  {
  }

  lemma OutsideNotDone(desc: seq<Desc>, base: nat, slots: seq<Slot>, i: nat)
    requires Descs(desc, base, slots) && i < |desc| && Off(base, i, |desc|) >= |slots|
    ensures !Done(desc[i].status)
  {
  }

  lemma MappedNone()
    ensures MappedAll([]) == []
  {
  }

  lemma MappedMore(ms: seq<Mapping>, m: Mapping)
    ensures MappedAll(ms + [m]) == MappedAll(ms) + [Mapped(m)]
  {
  }

  lemma TentativeMore(base: seq<Slot>, ms: seq<Mapping>, m: Mapping, olinfo: bv32)
    ensures base + TentativeAll(ms + [m], olinfo) ==
            base + TentativeAll(ms, olinfo) + [Tentative(Some(m), Some(olinfo))]
  {
  }

  lemma PieceBuffer(was: Buffer, b: Buffer, skb: Skb, handle: nat, k: nat, i: nat, size: nat, olinfo: bv32)
    requires Vacant(was) && handle > 0 && k <= |skb.frags| && i < size
    requires b == Buffer(handle, if k == 0 then skb.hlen else skb.frags[k - 1], k > 0 || was.page, was.skb, i)
    ensures BufferIs(b, Tentative(Some(PieceOf(skb, handle, k)), Some(olinfo)), i, size)
  {
  }

  lemma EmptyVacant(was: Buffer)
    requires Vacant(was)
    ensures Vacant(Buffer(0, 0, false, None, 0)) && was.skb == None && was.dma == 0 && !was.page
  {
  }

  lemma MadeNone(skb: Skb, handles: Handles, olinfo: bv32)
    requires |handles| == 1 + |skb.frags|
    ensures Made(skb, handles, 0) == [] && TentativeAll([], olinfo) == []
  {
  }

  lemma MadeValid(skb: Skb, handles: Handles, context: bool, word: Option<bv32>, olinfo: bv32)
    requires HandlesFor(skb, handles)
    requires |Made(skb, handles, |handles|)| == |handles|
    ensures Packet(skb.id, context, Made(skb, handles, |handles|), false, word, olinfo).Valid()
  {
  }

  lemma MadeMore(skb: Skb, handles: Handles, k: nat)
    requires k < |handles| == 1 + |skb.frags| && |Made(skb, handles, k)| == k && handles[k].Some?
    ensures Made(skb, handles, k + 1) == Made(skb, handles, k) + [PieceOf(skb, handles[k].value, k)]
  {
  }

  lemma {:induction false} MadeStops(skb: Skb, handles: Handles, k: nat)
    requires k < |handles| == 1 + |skb.frags| && |Made(skb, handles, k)| == k && handles[k].None?
    ensures Made(skb, handles, |handles|) == Made(skb, handles, k)
  {
    MadeStopsAt(skb, handles, k, |handles|);
  }

  lemma {:induction false} MadeStopsAt(skb: Skb, handles: Handles, k: nat, j: nat)
    requires k < j <= |handles| == 1 + |skb.frags| && |Made(skb, handles, k)| == k && handles[k].None?
    ensures Made(skb, handles, j) == Made(skb, handles, k)
  {
    if j > k + 1 { MadeStopsAt(skb, handles, k, j - 1); }
  }

  /** The last two writes of igb_tx_mappingadv make the tentative pieces the slots of a packet. */
  lemma {:induction false} Complete(bufs: seq<Buffer>, base: nat, slots: seq<Slot>, p: Packet)
    requires p.Valid() && !p.done
    requires Buffers(bufs, base, slots + ContextSlots(p.context, p.word) + TentativeAll(p.maps, p.olinfo))
    ensures var size := |bufs|;
            var first, last := At(base, |slots|, size), At(base, |slots| + p.Len() - 1, size);
            var b1 := bufs[last := bufs[last].(skb := Some(p.skb))];
            Buffers(b1[first := b1[first].(watch := last)], base, slots + PacketSlots(p))
  {
    hide Buffers;
    var all, size := slots + ContextSlots(p.context, p.word) + TentativeAll(p.maps, p.olinfo), |bufs|;
    BuffersSize(bufs, base, all);
    var f, l := |slots|, |slots| + p.Len() - 1;
    var first, last := At(base, f, size), At(base, l, size);
    InsideBuffer(bufs, base, all, l);
    var s1 := all[l].(skb := Some(p.skb), eop := true);
    SetBuffer(bufs, base, all, l, bufs[last].(skb := Some(p.skb)), s1);
    var b1, all1 := bufs[last := bufs[last].(skb := Some(p.skb))], all[l := s1];
    InsideBuffer(b1, base, all1, f);
    var s2 := all1[f].(span := Some(p.Len() - 1));
    assert At(first, p.Len() - 1, size) == last;
    SetBuffer(b1, base, all1, f, b1[first].(watch := last), s2);
    assert all1[f := s2] == slots + PacketSlots(p);
  }

  lemma BuffersSize(bufs: seq<Buffer>, base: nat, slots: seq<Slot>)
    requires Buffers(bufs, base, slots)
    ensures |slots| < |bufs| && base < |bufs|
  {
  }

  function UnmappedOf(packets: seq<Packet>): seq<DmaEvent> {
    if packets == [] then []
    else UnmappedOf(packets[..|packets| - 1]) + UnmappedAll(packets[|packets| - 1].maps)
  }

  lemma {:induction false} DataBuffer(bufs: seq<Buffer>, base: nat, slots: seq<Slot>, p: Packet, k: nat)
    requires p.Valid() && Buffers(bufs, base, slots + PacketSlots(p)) && k < |p.maps|
    ensures |slots + ContextSlots(p.context, p.word)| + k < |bufs|
    ensures var b := bufs[At(base, |slots + ContextSlots(p.context, p.word)| + k, |bufs|)];
            b.dma == p.maps[k].dma && b.length == p.maps[k].length
  {
    hide Buffers;
    BuffersSize(bufs, base, slots + PacketSlots(p));
    InsideBuffer(bufs, base, slots + PacketSlots(p), |slots + ContextSlots(p.context, p.word)| + k);
  }

  lemma {:induction false} MarkLast(desc: seq<Desc>, base: nat, slots: seq<Slot>, p: Packet)
    requires p.Valid() && !p.done
    requires Descs(desc, base, slots + ContextSlots(p.context, p.word) + TentativeAll(p.maps, p.olinfo))
    ensures base < |desc| && |slots| + p.Len() < |desc| && p.Len() > 0
    ensures var last := At(base, |slots| + p.Len() - 1, |desc|);
            Descs(desc[last := desc[last].(eop := true)], base, slots + PacketSlots(p))
  {
    hide Descs, DescIs;
    var all := slots + ContextSlots(p.context, p.word) + TentativeAll(p.maps, p.olinfo);
    var l := |slots| + p.Len() - 1;
    InsideDesc(desc, base, all, l);
    MarkedDesc(desc[At(base, l, |desc|)], all[l]);
    var last := At(base, l, |desc|);
    SetDesc(desc, base, all, l, desc[last].(eop := true), all[l].(eop := true));
    SameDescs(desc[last := desc[last].(eop := true)], base, all[l := all[l].(eop := true)], slots + PacketSlots(p));
  }

  lemma InsideDesc(desc: seq<Desc>, base: nat, slots: seq<Slot>, k: nat)
    requires Descs(desc, base, slots) && k < |slots|
    ensures base < |desc| && |slots| < |desc| && DescIs(desc[At(base, k, |desc|)], slots[k])
  {
  }

  /** The descriptors from start on are those of this packet: each piece, the last one marked, and its words. */
  ghost predicate OnRing(desc: seq<Desc>, start: nat, p: Packet) {
    && start < |desc| && p.Len() < |desc|
    && (p.context ==> desc[start].context && (p.word.Some? ==> desc[start].status == p.word.value))
    && forall j | 0 <= j < |p.maps| ::
         desc[At(start, if p.context then 1 + j else j, |desc|)] ==
         Desc(false, p.maps[j].dma, p.maps[j].length, j == |p.maps| - 1, p.olinfo)
  }

  lemma {:induction false} LastOnRing(desc: seq<Desc>, base: nat, slots: seq<Slot>, p: Packet)
    requires p.Valid() && !p.done && Descs(desc, base, slots + PacketSlots(p))
    ensures base < |desc| && |slots| < |desc| && OnRing(desc, At(base, |slots|, |desc|), p)
  {
    hide Descs, Done, PacketSlots, Packet.Valid;
    var all, n := slots + PacketSlots(p), |desc|;
    LenPositive(p);
    InsideDesc(desc, base, all, |slots|);
    var start := At(base, |slots|, n);
    if p.context { SlotIs(p, 0); }
    forall j | 0 <= j < |p.maps|
      ensures desc[At(start, if p.context then 1 + j else j, n)] ==
              Desc(false, p.maps[j].dma, p.maps[j].length, j == |p.maps| - 1, p.olinfo)
    {
      var k := if p.context then 1 + j else j;
      SlotIs(p, k);
      InsideDesc(desc, base, all, |slots| + k);
      assert At(start, k, n) == At(base, |slots| + k, n);
    }
  }

  lemma MarkedDesc(d: Desc, s: Slot)
    requires DescIs(d, s)
    ensures DescIs(d.(eop := true), s.(eop := true))
  {
  }

  lemma SameDescs(desc: seq<Desc>, base: nat, a: seq<Slot>, b: seq<Slot>)
    requires Descs(desc, base, a) && |a| == |b|
    requires forall k | 0 <= k < |a| :: a[k].mapping == b[k].mapping && a[k].eop == b[k].eop && a[k].done == b[k].done
    requires forall k | 0 <= k < |a| :: a[k].word == b[k].word
    ensures Descs(desc, base, b)
  {
  }

  /** Taking back a context descriptor that no packet uses. */
  lemma {:induction false} DropContext(bufs: seq<Buffer>, desc: seq<Desc>, base: nat, slots: seq<Slot>, context: bool,
                                    word: Option<bv32>)
    requires Buffers(bufs, base, slots + ContextSlots(context, word))
    requires Descs(desc, base, slots + ContextSlots(context, word))
    ensures Buffers(bufs, base, slots) && Descs(desc, base, slots)
  {
    hide Buffers, Descs;
    if context {
      var all := slots + [Tentative(None, word)];
      BuffersSize(bufs, base, all);
      InsideBuffer(bufs, base, all, |slots|);
      var i := At(base, |slots|, |bufs|);
      DropBuffer(bufs, base, all, bufs[i]);
      assert bufs[i := bufs[i]] == bufs && all[..|slots|] == slots;
      DropDesc(desc, base, slots, Tentative(None, word));
    } else {
      assert slots + ContextSlots(false, word) == slots;
    }
  }

  lemma {:induction false} DropDesc(desc: seq<Desc>, base: nat, slots: seq<Slot>, s: Slot)
    requires Descs(desc, base, slots + [s]) && !s.done
    ensures Descs(desc, base, slots)
  {
    hide Done;
  }

  /** The log after a mapping error: everything that was mapped for the packet is unmapped again, last one first. */
  lemma {:induction false} RolledBack(log: seq<DmaEvent>, live: multiset<Mapping>, ms: seq<Mapping>)
    requires Balanced(log, live)
    ensures Balanced(log + (MappedAll(ms) + UnmappedAll(Reversed(ms))), live)
  {
    hide Balanced, Reversed;
    BalancedMaps(log, live, ms);
    ReversedMultiset(ms);
    BalancedUnmaps(log + MappedAll(ms), live, Reversed(ms));
    assert log + MappedAll(ms) + UnmappedAll(Reversed(ms)) == log + (MappedAll(ms) + UnmappedAll(Reversed(ms)));
  }

  lemma {:induction false} OneMore(flight: seq<Packet>, p: Packet, log: seq<DmaEvent>, cleaned: seq<nat>)
    requires AllValid(flight) && p.Valid() && Balanced(log, AllMaps(flight))
    ensures AllValid(flight + [p]) && Flat(flight + [p]) == Flat(flight) + PacketSlots(p)
    ensures |PacketSlots(p)| == p.Len()
    ensures Balanced(log + MappedAll(p.maps), AllMaps(flight + [p]))
    ensures cleaned + Skbs(flight) + [p.skb] == cleaned + Skbs(flight + [p])
  {
    hide Balanced;
    FlatSnoc(flight, p);
    BalancedMaps(log, AllMaps(flight), p.maps);
    AllMapsSnoc(flight, p);
  }

  lemma WatchInRange(bufs: seq<Buffer>, base: nat, slots: seq<Slot>, i: nat)
    requires Buffers(bufs, base, slots) && i < |bufs|
    ensures bufs[i].watch < |bufs| && |slots| < |bufs|
  {
  }

  lemma LenPositive(p: Packet)
    requires p.Valid()
    ensures p.Len() > 0
  {
  }

  lemma SlotIs(p: Packet, n: nat)
    requires p.Valid() && n < p.Len()
    ensures PacketSlots(p)[n] == SlotOf(p, n)
    ensures p.context && n == 0 ==> SlotOf(p, n).mapping == None
    ensures !(p.context && n == 0) ==> SlotOf(p, n).mapping == Some(p.maps[if p.context then n - 1 else n])
    ensures SlotOf(p, n).skb == if n == p.Len() - 1 then Some(p.skb) else None
    ensures SlotOf(p, n).eop == (n == p.Len() - 1) && SlotOf(p, n).done == (n == p.Len() - 1 && p.done)
    ensures SlotOf(p, n).word == if p.context && n == 0 then p.word else Some(p.olinfo)
  {
  }

  lemma NotDoneZero()
    ensures !Done(0)
  {
  }

  /** next_to_use meets next_to_clean only when nothing is in flight. */
  lemma {:induction false} NeverCatches(ring: TxRing)
    requires ring.Valid()
    ensures ring.nextToUse == ring.nextToClean <==> ring.flight == []
    ensures ring.DescUnused() + |Flat(ring.flight)| + 1 == ring.count
  {
    if ring.flight != [] { LenPositive(ring.flight[0]); }
  }
}
