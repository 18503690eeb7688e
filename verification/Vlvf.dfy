/** modules/igb: the 32 VLAN filter entries of the virtual functions, and the VLAN filter bit array kept in step. */
module Vlvf {
  import opened Common

  const ARRAY_SIZE: nat := 32              // E1000_VLVF_ARRAY_SIZE
  const TBL_SIZE: nat := 128               // E1000_VLAN_FILTER_TBL_SIZE
  const VLANID_MASK: bv32 := 0xFFF
  const POOLSEL_MASK: bv32 := 0xF_F000
  const VLANID_ENABLE: bv32 := 0x8000_0000
  const RLPML_MASK: bv32 := 0x3FFF
  const E1000_82576: nat := 2

  /** 1 << (E1000_VLVF_POOLSEL_SHIFT + vf) */
  function PoolBit(vf: nat): bv32
    requires vf < 8
  {
    if vf == 0 then 0x1000 else if vf == 1 then 0x2000 else if vf == 2 then 0x4000 else if vf == 3 then 0x8000
    else if vf == 4 then 0x1_0000 else if vf == 5 then 0x2_0000 else if vf == 6 then 0x4_0000 else 0x8_0000
  }

  function Masked(a: bv32, b: bv32): bv32 {
    a & b
  }

  function Not(a: bv32): bv32 {
    !a
  }

  predicate Hit(reg: bv32, m: bv32) {
    Masked(reg, m) != 0
  }

  predicate Enabled(reg: bv32) {
    Hit(reg, VLANID_ENABLE)
  }

  function Vid(reg: bv32): bv32 {
    reg & VLANID_MASK
  }

  predicate InPool(reg: bv32, vf: nat) {
    vf < 8 && Hit(reg, PoolBit(vf))
  }

  function Pools(reg: bv32): set<nat> {
    set vf: nat | vf < 8 && InPool(reg, vf)
  }

  // ---------- the words ----------

  /** reg |= m */
  function With(reg: bv32, m: bv32): bv32 {
    reg | m
  }

  function Enable(reg: bv32): bv32 {
    reg | VLANID_ENABLE
  }

  /** reg &= ~m */
  function Without(reg: bv32, m: bv32): bv32 {
    Masked(reg, Not(m))
  }

  /** reg &= ~VLANID_MASK; reg |= vid */
  function WithVid(reg: bv32, vid: bv32): bv32 {
    (reg & !VLANID_MASK) | vid
  }

  /** The field of the longest packet, which the call changes by delta: size += 4 or size -= 4. */
  function Resized(reg: bv32, delta: bv32): bv32 {
    (reg & !RLPML_MASK) | ((reg & RLPML_MASK) + delta)
  }

  /** A single bit of the pool field. */
  predicate PoolMask(m: bv32) {
    m != 0 && m & (m - 1) == 0 && m & POOLSEL_MASK == m
  }

  lemma PoolBitIs(vf: nat, other: nat)
    requires vf < 8 && other < 8
    ensures PoolMask(PoolBit(vf)) && (PoolBit(vf) == PoolBit(other) ==> vf == other)
  {
  }

  lemma EightMasks(m: bv32)
    requires PoolMask(m)
    ensures m == 0x1000 || m == 0x2000 || m == 0x4000 || m == 0x8000 ||
            m == 0x1_0000 || m == 0x2_0000 || m == 0x4_0000 || m == 0x8_0000
  {
  }

  lemma Apart(m: bv32, o: bv32)
    requires PoolMask(m) && PoolMask(o)
    ensures m & o == if m == o then m else 0
  {
    EightMasks(m);
    EightMasks(o);
  }

  lemma OrHits(reg: bv32, m: bv32, o: bv32)
    ensures Hit(reg | m, o) <==> Hit(reg, o) || Hit(m, o)
  {
    assert (reg | m) & o == (reg & o) | (m & o);
  }

  lemma WithPoolIs(reg: bv32, m: bv32, o: bv32)
    requires PoolMask(m) && PoolMask(o)
    ensures Hit(With(reg, m), o) <==> o == m || Hit(reg, o)
    ensures Enabled(With(reg, m)) == Enabled(reg)
  {
    Apart(m, o);
    OrHits(reg, m, o);
    OrHits(reg, m, VLANID_ENABLE);
    EightMasks(m);
  }

  lemma WithVidIs(reg: bv32, vid: bv32, o: bv32)
    requires PoolMask(o) && vid < 4096
    ensures Hit(WithVid(reg, vid), o) == Hit(reg, o)
    ensures Enabled(WithVid(reg, vid)) == Enabled(reg) && Vid(WithVid(reg, vid)) == vid
  {
  }

  lemma EnableIs(reg: bv32, o: bv32)
    requires PoolMask(o)
    ensures Enabled(Enable(reg)) && Hit(Enable(reg), o) == Hit(reg, o)
  {
  }

  lemma {:induction false} WithoutIs(reg: bv32, m: bv32, o: bv32)
    requires PoolMask(m) && PoolMask(o)
    ensures Hit(Without(reg, m), o) <==> o != m && Hit(reg, o)
    ensures Enabled(Without(reg, m)) == Enabled(reg) && Vid(Without(reg, m)) == Vid(reg)
  {
    hide Without, PoolMask, Vid, Hit;
    Elsewhere(m);
    Apart(m, o);
    if o == m {
      WithoutSame(reg, m);
    } else {
      WithoutOther(reg, m, o);
    }
    WithoutOther(reg, m, VLANID_ENABLE);
    WithoutVid(reg, m);
  }

  lemma Elsewhere(m: bv32)
    requires PoolMask(m)
    ensures m & VLANID_ENABLE == 0 && m & VLANID_MASK == 0
  {
  }

  lemma WithoutSame(reg: bv32, m: bv32)
    ensures !Hit(Without(reg, m), m)
  {
  }

  lemma WithoutVid(reg: bv32, m: bv32)
    requires m & VLANID_MASK == 0
    ensures Vid(Without(reg, m)) == Vid(reg)
  {
  }

  lemma {:induction false} WithoutOther(reg: bv32, m: bv32, o: bv32)
    requires m & o == 0
    ensures Hit(Without(reg, m), o) == Hit(reg, o)
  {
    hide Masked, Not;
    MaskedTwice(reg, Not(m), o);
    Untouchable(m, o);
  }

  lemma MaskedTwice(a: bv32, b: bv32, c: bv32)
    ensures Masked(Masked(a, b), c) == Masked(a, Masked(b, c))
  {
    assert (a & b) & c == a & (b & c);
  }

  lemma Untouchable(m: bv32, o: bv32)
    requires m & o == 0
    ensures Masked(Not(m), o) == o
  {
  }

  lemma NothingHit(o: bv32)
    ensures !Hit(0, o)
  {
  }

  lemma FieldBits(reg: bv32)
    ensures reg & POOLSEL_MASK != 0 ==>
              reg & 0x1000 != 0 || reg & 0x2000 != 0 || reg & 0x4000 != 0 || reg & 0x8000 != 0 ||
              reg & 0x1_0000 != 0 || reg & 0x2_0000 != 0 || reg & 0x4_0000 != 0 || reg & 0x8_0000 != 0
  {
  }

  lemma FieldEmpty(reg: bv32, m: bv32)
    requires reg & POOLSEL_MASK == 0 && PoolMask(m)
    ensures !Hit(reg, m)
  {
  }

  /** The pool field is 0 exactly if no pool is selected. */
  lemma {:induction false} NoPools(reg: bv32)
    ensures !Hit(reg, POOLSEL_MASK) <==> Pools(reg) == {}
  {
    if !Hit(reg, POOLSEL_MASK) {
      forall vf: nat | vf < 8 ensures !InPool(reg, vf) {
        PoolBitIs(vf, 0);
        FieldEmpty(reg, PoolBit(vf));
      }
    } else {
      FieldBits(reg);
      assert 0 in Pools(reg) || 1 in Pools(reg) || 2 in Pools(reg) || 3 in Pools(reg) ||
             4 in Pools(reg) || 5 in Pools(reg) || 6 in Pools(reg) || 7 in Pools(reg);
    }
  }

  /** The word igb_vlvf_set writes when it adds pool vf. */
  lemma {:induction false} AddedWord(reg: bv32, vid: bv32, vf: nat, enable: bool)
    requires vf < 8 && vid < 4096 && (enable || Enabled(reg))
    ensures var word := WithVid(if enable then Enable(With(reg, PoolBit(vf))) else With(reg, PoolBit(vf)), vid);
            Enabled(word) && Vid(word) == vid && Pools(word) == Pools(reg) + {vf}
  {
    hide Hit, Enabled, Vid, With, WithVid, Enable, PoolMask, PoolBit;
    var m := PoolBit(vf);
    var r1 := With(reg, m);
    var r2 := if enable then Enable(r1) else r1;
    PoolBitIs(vf, 0);
    WithPoolIs(reg, m, m);
    EnableIs(r1, m);
    WithVidIs(r2, vid, m);
    forall o: nat | o < 8 ensures InPool(WithVid(r2, vid), o) <==> o == vf || InPool(reg, o) {
      PoolBitIs(o, vf);
      WithPoolIs(reg, m, PoolBit(o));
      EnableIs(r1, PoolBit(o));
      WithVidIs(r2, vid, PoolBit(o));
    }
  }

  lemma {:induction false} RemovedWord(reg: bv32, vf: nat)
    requires vf < 8
    ensures var word := Without(reg, PoolBit(vf));
            Enabled(word) == Enabled(reg) && Vid(word) == Vid(reg) && Pools(word) == Pools(reg) - {vf}
  {
    hide Hit, Enabled, Vid, Without, PoolMask, PoolBit;
    var m := PoolBit(vf);
    PoolBitIs(vf, 0);
    WithoutIs(reg, m, m);
    forall o: nat | o < 8 ensures InPool(Without(reg, m), o) <==> o != vf && InPool(reg, o) {
      PoolBitIs(o, vf);
      WithoutIs(reg, m, PoolBit(o));
    }
  }

  lemma ZeroWord()
    ensures !Enabled(0) && Pools(0) == {}
  {
    forall vf: nat | vf < 8 ensures !InPool(0, vf) { NothingHit(PoolBit(vf)); }
  }

  /** Where the device looks in an entry: bit 31 enables it, bits 0 to 11 are the id, and bit 12 + vf is for VF vf. */
  lemma {:induction false} EntryBits(reg: bv32)
    ensures (Enabled(reg) <==> reg >> 31 == 1) && Vid(reg) == reg & 0xFFF && forall vf | vf in Pools(reg) :: vf < 8
    ensures 0 in Pools(reg) <==> (reg >> 12) & 1 == 1
    ensures 1 in Pools(reg) <==> (reg >> 13) & 1 == 1
    ensures 2 in Pools(reg) <==> (reg >> 14) & 1 == 1
    ensures 3 in Pools(reg) <==> (reg >> 15) & 1 == 1
    ensures 4 in Pools(reg) <==> (reg >> 16) & 1 == 1
    ensures 5 in Pools(reg) <==> (reg >> 17) & 1 == 1
    ensures 6 in Pools(reg) <==> (reg >> 18) & 1 == 1
    ensures 7 in Pools(reg) <==> (reg >> 19) & 1 == 1
  {
    TopBit(reg);
    LowPoolBits(reg);
    HighPoolBits(reg);
    VidBits(reg);
    hide Hit, Enabled, Vid;
  }

  lemma VidBits(reg: bv32)
    ensures Vid(reg) == reg & 0xFFF
  {
  }

  lemma TopBit(reg: bv32)
    ensures Enabled(reg) <==> reg >> 31 == 1
  {
  }

  lemma LowPoolBits(reg: bv32)
    ensures Hit(reg, 0x1000) <==> (reg >> 12) & 1 == 1
    ensures Hit(reg, 0x2000) <==> (reg >> 13) & 1 == 1
    ensures Hit(reg, 0x4000) <==> (reg >> 14) & 1 == 1
    ensures Hit(reg, 0x8000) <==> (reg >> 15) & 1 == 1
  {
  }

  lemma HighPoolBits(reg: bv32)
    ensures Hit(reg, 0x1_0000) <==> (reg >> 16) & 1 == 1
    ensures Hit(reg, 0x2_0000) <==> (reg >> 17) & 1 == 1
    ensures Hit(reg, 0x4_0000) <==> (reg >> 18) & 1 == 1
    ensures Hit(reg, 0x8_0000) <==> (reg >> 19) & 1 == 1
  {
  }

  // ---------- the VLAN filter table ----------

  function High(vid: bv32): bv32 {
    (vid >> 5) & 0x7F
  }

  function Low(vid: bv32): bv32 {
    vid & 0x1F
  }

  /** Register and bit of a VLAN id in the filter table. */
  function Index(vid: bv32): (i: nat)
    ensures i < TBL_SIZE
  {
    High(vid) as nat
  }

  function Mask(vid: bv32): bv32 {
    1 << Low(vid)
  }

  predicate Filtered(vfta: seq<bv32>, vid: bv32)
    requires |vfta| == TBL_SIZE
  {
    Hit(vfta[Index(vid)], Mask(vid))
  }

  /** Where the device looks for an id: 32 * r + b has bit b of register r. */
  lemma {:induction false} FilterBit(vfta: seq<bv32>, r: bv32, b: bv32)
    requires |vfta| == TBL_SIZE && r < 128 && b < 32
    ensures (r as nat) < TBL_SIZE
    ensures Filtered(vfta, (r << 5) | b) <==> (vfta[r as nat] >> b) & 1 == 1
  {
    PlaceOf(r, b);
    hide High, Low, Hit;
    BitHit(vfta[r as nat], b);
  }

  lemma PlaceOf(r: bv32, b: bv32)
    requires r < 128 && b < 32
    ensures High((r << 5) | b) == r && Low((r << 5) | b) == b
  {
  }

  lemma BitHit(w: bv32, b: bv32)
    requires b < 32
    ensures Hit(w, 1 << b) <==> (w >> b) & 1 == 1
  {
  }

  lemma SamePlace(u: bv32, v: bv32)
    requires u < 4096 && v < 4096 && High(u) == High(v) && Low(u) == Low(v)
    ensures u == v
  {
  }

  predicate Disjoint(m: bv32, o: bv32) {
    m & o == 0
  }

  lemma MaskApart(u: bv32, v: bv32)
    ensures Low(u) != Low(v) ==> Disjoint(Mask(u), Mask(v))
    ensures Low(u) == Low(v) ==> Mask(u) == Mask(v)
  {
  }

  lemma MaskSet(w: bv32, v: bv32)
    ensures Hit(With(w, Mask(v)), Mask(v)) && !Hit(Without(w, Mask(v)), Mask(v))
  {
  }

  lemma {:induction false} MaskBits(w: bv32, u: bv32, v: bv32)
    ensures Hit(With(w, Mask(u)), Mask(v)) <==> Low(u) == Low(v) || Hit(w, Mask(v))
    ensures Hit(Without(w, Mask(u)), Mask(v)) <==> Low(u) != Low(v) && Hit(w, Mask(v))
  {
    hide Low, Mask, Hit, With, Without, Disjoint;
    MaskApart(u, v);
    MaskSet(w, v);
    if Low(u) != Low(v) { Untouched(w, Mask(u), Mask(v)); }
  }

  lemma Untouched(w: bv32, m: bv32, o: bv32)
    requires Disjoint(m, o)
    ensures Hit(With(w, m), o) == Hit(w, o) && Hit(Without(w, m), o) == Hit(w, o)
  {
    WithDisjoint(w, m, o);
    WithoutDisjoint(w, m, o);
  }

  lemma WithDisjoint(w: bv32, m: bv32, o: bv32)
    requires Disjoint(m, o)
    ensures Hit(With(w, m), o) == Hit(w, o)
  {
    hide Masked;
    OrHits(w, m, o);
    NoneMasked(m, o);
  }

  lemma NoneMasked(m: bv32, o: bv32)
    requires Disjoint(m, o)
    ensures Masked(m, o) == 0
  {
  }

  lemma WithoutDisjoint(w: bv32, m: bv32, o: bv32)
    requires Disjoint(m, o)
    ensures Hit(Without(w, m), o) == Hit(w, o)
  {
    hide Hit, Without;
    WithoutOther(w, m, o);
  }

  lemma SameIndex(u: bv32, v: bv32)
    requires Index(u) == Index(v)
    ensures High(u) == High(v)
  {
  }

  /** The filter table after the bit of vid was written. */
  ghost predicate FilterSet(before: seq<bv32>, after: seq<bv32>, vid: bv32, add: bool) {
    && |before| == |after| == TBL_SIZE
    && forall u: bv32 {:trigger Filtered(after, u)} | u < 4096 ::
         Filtered(after, u) == if u == vid then add else Filtered(before, u)
  }

  lemma {:induction false} WordSet(before: seq<bv32>, vid: bv32, add: bool)
    requires |before| == TBL_SIZE && vid < 4096
    ensures var w := before[Index(vid)];
            FilterSet(before, before[Index(vid) := if add then With(w, Mask(vid)) else Without(w, Mask(vid))], vid, add)
  {
    hide Hit, Index, Mask, With, Without, High, Low;
    var w := before[Index(vid)];
    var after := before[Index(vid) := if add then With(w, Mask(vid)) else Without(w, Mask(vid))];
    forall u: bv32 | u < 4096 ensures Filtered(after, u) == if u == vid then add else Filtered(before, u) {
      if Index(u) == Index(vid) {
        MaskBits(w, vid, u);
        SameIndex(u, vid);
        if Low(u) == Low(vid) { SamePlace(u, vid); }
      }
    }
  }

  lemma WordKept(before: seq<bv32>, vid: bv32)
    requires |before| == TBL_SIZE
    ensures FilterSet(before, before, vid, Filtered(before, vid))
  {
  }

  // ---------- the entries as a map ----------

  /** Which pools a VLAN id is for; none if it is not in the table. */
  type Table = bv32 -> set<nat>

  function Put(table: Table, vid: bv32, pools: set<nat>): Table {
    (v: bv32) => if v == vid then pools else table(v)
  }

  ghost predicate EntryFor(regs: seq<bv32>, vid: bv32) {
    exists i {:trigger regs[i]} :: 0 <= i < |regs| && Enabled(regs[i]) && Vid(regs[i]) == vid
  }

  /** Enabled entries have different ids and at least one pool, disabled ones are 0, and only enabled ids pass. */
  ghost predicate Represents(regs: seq<bv32>, vfta: seq<bv32>, table: Table) {
    && |regs| == ARRAY_SIZE && |vfta| == TBL_SIZE
    && (forall i {:trigger regs[i]} | 0 <= i < |regs| ::
          if Enabled(regs[i]) then table(Vid(regs[i])) == Pools(regs[i]) != {} else regs[i] == 0)
    && (forall i, j {:trigger regs[i], regs[j]} | 0 <= i < j < |regs| && Enabled(regs[i]) && Enabled(regs[j]) ::
          Vid(regs[i]) != Vid(regs[j]))
    && (forall vid: bv32 {:trigger table(vid)} | table(vid) != {} :: vid < 4096 && EntryFor(regs, vid))
    && (forall vid: bv32 {:trigger Filtered(vfta, vid)} | vid < 4096 :: Filtered(vfta, vid) <==> table(vid) != {})
  }

  ghost predicate Room(regs: seq<bv32>) {
    exists i {:trigger regs[i]} :: 0 <= i < |regs| && !Enabled(regs[i])
  }

  /** Whether igb_vlvf_set finds an entry to write to. */
  predicate Writes(table: Table, vid: bv32, add: bool, room: bool) {
    table(vid) != {} || (add && room)
  }

  /** What igb_vlvf_set does to the map; with no room, a new id is dropped without an error. */
  function After(table: Table, vid: bv32, add: bool, vf: nat, room: bool): Table {
    if !add then Put(table, vid, table(vid) - {vf})
    else if table(vid) != {} || room then Put(table, vid, table(vid) + {vf})
    else table
  }

  lemma {:induction false} EntryStays(regs: seq<bv32>, i: nat, word: bv32, vid: bv32)
    requires EntryFor(regs, vid) && i < |regs| && Enabled(word) && Vid(word) == Vid(regs[i])
    ensures EntryFor(regs[i := word], vid)
  {
    hide Enabled, Vid;
    var j :| 0 <= j < |regs| && Enabled(regs[j]) && Vid(regs[j]) == vid;
    assert Enabled(regs[i := word][j]) && Vid(regs[i := word][j]) == vid;
  }

  lemma {:induction false} Rewritten(regs: seq<bv32>, vfta: seq<bv32>, table: Table, i: nat, word: bv32)
    requires Represents(regs, vfta, table) && i < |regs| && Enabled(regs[i])
    requires Enabled(word) && Vid(word) == Vid(regs[i]) && Pools(word) != {}
    ensures Represents(regs[i := word], vfta, Put(table, Vid(word), Pools(word)))
  {
    hide Enabled, Vid, Pools, Filtered, EntryFor;
    var regs', table' := regs[i := word], Put(table, Vid(word), Pools(word));
    forall vid: bv32 | table'(vid) != {} ensures vid < 4096 && EntryFor(regs', vid) {
      assert table(vid) != {};
      EntryStays(regs, i, word, vid);
    }
  }

  lemma {:induction false} Entered(regs: seq<bv32>, vfta: seq<bv32>, vfta': seq<bv32>, table: Table, i: nat, word: bv32)
    requires Represents(regs, vfta, table) && i < |regs| && !Enabled(regs[i])
    requires Enabled(word) && Vid(word) < 4096 && table(Vid(word)) == {} && Pools(word) != {}
    requires FilterSet(vfta, vfta', Vid(word), true)
    ensures Represents(regs[i := word], vfta', Put(table, Vid(word), Pools(word)))
  {
    hide Enabled, Vid, Pools, Filtered;
    var regs', table' := regs[i := word], Put(table, Vid(word), Pools(word));
    assert regs'[i] == word;
    forall vid: bv32 | table'(vid) != {} ensures vid < 4096 && EntryFor(regs', vid) {
      if vid != Vid(word) {
        assert table(vid) != {};
        var j :| 0 <= j < |regs| && Enabled(regs[j]) && Vid(regs[j]) == vid;
        assert Enabled(regs'[j]) && Vid(regs'[j]) == vid;
      }
    }
  }

  lemma {:induction false} Cleared(regs: seq<bv32>, vfta: seq<bv32>, vfta': seq<bv32>, table: Table, i: nat)
    requires Represents(regs, vfta, table) && i < |regs| && Enabled(regs[i]) && Vid(regs[i]) < 4096
    requires FilterSet(vfta, vfta', Vid(regs[i]), false)
    ensures Represents(regs[i := 0], vfta', Put(table, Vid(regs[i]), {}))
  {
    hide Enabled, Vid, Pools, Filtered;
    ZeroWord();
    var regs', table' := regs[i := 0], Put(table, Vid(regs[i]), {});
    forall vid: bv32 | table'(vid) != {} ensures vid < 4096 && EntryFor(regs', vid) {
      assert table(vid) != {};
      var j :| 0 <= j < |regs| && Enabled(regs[j]) && Vid(regs[j]) == vid;
      assert Enabled(regs'[j]) && Vid(regs'[j]) == vid;
    }
  }

  class Filters {
    const vlvf: array<bv32>
    const vfta: array<bv32>
    const mac: nat                 // hw->mac.type
    const vfs: nat                 // vfs_allocated_count
    var vlansEnabled: seq<nat>     // vf_data[vf].vlans_enabled, 16 bits each
    var vmolr: seq<bv32>           // the VMOLR registers of the VFs
    ghost var table: Table

    ghost predicate Valid()
      reads this, vlvf, vfta
    {
      && vlvf != vfta && Represents(vlvf[..], vfta[..], table)
      && |vlansEnabled| == |vmolr| == vfs
    }

    /** Zeroed registers and counters */
    constructor (mac: nat, vfs: nat, vmolr: seq<bv32>)
      requires |vmolr| == vfs
      ensures Valid() && (forall vid: bv32 :: table(vid) == {}) && this.mac == mac && this.vfs == vfs
      ensures this.vmolr == vmolr && vlansEnabled == seq(vfs, _ => 0)
    {
      this.mac, this.vfs, this.vmolr, vlansEnabled := mac, vfs, vmolr, seq(vfs, _ => 0);
      vlvf := new bv32[ARRAY_SIZE](_ => 0);
      vfta := new bv32[TBL_SIZE](_ => 0);
      table := _ => {};
      new;
      hide Enabled, Hit, Pools;
      ZeroWord();
      forall vid: bv32 | vid < 4096 ensures !Filtered(vfta[..], vid) { NothingHit(Mask(vid)); }
    }

    /** igb_vfta_set */
    method VftaSet(vid: bv32, add: bool) returns (ret: int)
      requires vid < 4096 && vfta.Length == TBL_SIZE
      modifies vfta
      ensures FilterSet(old(vfta[..]), vfta[..], vid, add)
      ensures ret == 0 <==> old(Filtered(vfta[..], vid)) != add
    {
      hide Index, FilterSet, With, Without, Mask, Hit;
      var index := Index(vid);
      var mask := Mask(vid);
      var word := vfta[index];
      ret := 0;
      WordKept(vfta[..], vid);
      WordSet(vfta[..], vid, add);
      if Hit(word, mask) == add {
        ret := -3;
      } else if add {
        word := With(word, mask);
      } else {
        word := Without(word, mask);
      }
      ghost var before := vfta[..];
      vfta[index] := word;
      assert ret != 0 ==> vfta[..] == before;
    }

    /** The first loop: the entry of an id, or 32. */
    method Find(vid: bv32) returns (i: nat)
      requires Valid()
      ensures i <= ARRAY_SIZE && (i < ARRAY_SIZE <==> table(vid) != {})
      ensures i < ARRAY_SIZE ==> Enabled(vlvf[i]) && Vid(vlvf[i]) == vid
    {
      hide Enabled, Vid, Pools;
      i := 0;
      while i < ARRAY_SIZE
        invariant i <= ARRAY_SIZE
        invariant forall j {:trigger vlvf[j]} | 0 <= j < i :: !(Enabled(vlvf[j]) && Vid(vlvf[j]) == vid)
      {
        var reg := vlvf[i];
        if Enabled(reg) && vid == Vid(reg) { break; }
        i := i + 1;
      }
      assert table(vid) != {} ==> EntryFor(vlvf[..], vid);
    }

    /** The second loop: an entry that is not enabled, or 32. */
    method FindFree() returns (i: nat)
      requires Valid()
      ensures i <= ARRAY_SIZE && (i < ARRAY_SIZE <==> Room(vlvf[..]))
      ensures i < ARRAY_SIZE ==> !Enabled(vlvf[i])
    {
      hide Enabled, Vid, Pools;
      i := 0;
      while i < ARRAY_SIZE
        invariant i <= ARRAY_SIZE
        invariant forall j {:trigger vlvf[j]} | 0 <= j < i :: Enabled(vlvf[j])
      {
        var reg := vlvf[i];
        if !Enabled(reg) { break; }
        i := i + 1;
      }
      if i < ARRAY_SIZE { assert !Enabled(vlvf[..][i]); }
    }

    /** The writes when a VF is added to the pool of entry i, which is for vid already or is free. */
    method AddPool(i: nat, vid: bv32, vf: nat)
      requires Valid() && vid < 4096 && vf < 8 && i < ARRAY_SIZE
      requires if table(vid) != {} then Enabled(vlvf[i]) && Vid(vlvf[i]) == vid else !Enabled(vlvf[i])
      modifies this`table, vlvf, vfta
      ensures Valid() && forall v: bv32 :: table(v) == if v == vid then old(table)(v) + {vf} else old(table)(v)
    {
      hide Represents, Enabled, Vid, Pools, PoolBit, FilterSet;
      ghost var existing := table(vid) != {};
      RepresentsSizes(vlvf[..], vfta[..], table);
      EntryIs(vlvf[..], vfta[..], table, i);
      var was := vlvf[i];
      var reg := With(was, PoolBit(vf));
      PoolKeepsEnabled(was, vf);
      AddedWord(was, vid, vf, !existing);
      ghost var filters := vfta[..];
      if !Enabled(reg) {
        var _ := VftaSet(vid, true);
        reg := Enable(reg);
      }
      reg := WithVid(reg, vid);
      if existing {
        Rewritten(vlvf[..], vfta[..], table, i, reg);
      } else {
        Entered(vlvf[..], filters, vfta[..], table, i, reg);
      }
      vlvf[i] := reg;
      table := Put(table, vid, Pools(reg));
    }

    /** The writes when a VF is removed from the pool of entry i. */
    method RemovePool(i: nat, vid: bv32, vf: nat)
      requires Valid() && vid < 4096 && vf < 8 && i < ARRAY_SIZE && Enabled(vlvf[i]) && Vid(vlvf[i]) == vid
      modifies this`table, vlvf, vfta
      ensures Valid() && forall v: bv32 :: table(v) == if v == vid then old(table)(v) - {vf} else old(table)(v)
    {
      hide Represents, Enabled, Vid, Pools, PoolBit, FilterSet;
      RepresentsSizes(vlvf[..], vfta[..], table);
      EntryIs(vlvf[..], vfta[..], table, i);
      RemovedWord(vlvf[i], vf);
      var reg := Without(vlvf[i], PoolBit(vf));
      NoPools(reg);
      if !Hit(reg, POOLSEL_MASK) {
        ghost var filters := vfta[..];
        var _ := VftaSet(vid, false);
        Cleared(vlvf[..], filters, vfta[..], table, i);
        vlvf[i] := 0;
        table := Put(table, vid, {});
      } else {
        Rewritten(vlvf[..], vfta[..], table, i, reg);
        vlvf[i] := reg;
        table := Put(table, vid, Pools(reg));
      }
    }

    /** The search and the writes to the two tables; written says whether there was an entry to write to. */
    method SetPool(vid: bv32, add: bool, vf: nat) returns (written: bool)
      requires Valid() && vid < 4096 && vf < 8
      modifies this`table, vlvf, vfta
      ensures Valid() && written == old(Writes(table, vid, add, Room(vlvf[..])))
      ensures forall v: bv32 :: table(v) == After(old(table), vid, add, vf, old(Room(vlvf[..])))(v)
    {
      hide Represents, Enabled, Vid, Room;
      RepresentsSizes(vlvf[..], vfta[..], table);
      var i := Find(vid);
      if add {
        if i == ARRAY_SIZE { i := FindFree(); }
        written := i < ARRAY_SIZE;
        if written { AddPool(i, vid, vf); }
      } else {
        written := i < ARRAY_SIZE;
        if written { RemovePool(i, vid, vf); }
      }
    }

    /** igb_vlvf_set; a new id is dropped without an error when the table is full. */
    method VlvfSet(vid: bv32, add: bool, vf: nat) returns (ret: int)
      requires Valid() && vid < 4096 && vf < 8
      modifies this`table, this`vlansEnabled, this`vmolr, vlvf, vfta
      ensures Valid() && ret == if mac < E1000_82576 || vfs == 0 then -1 else 0
      ensures ret != 0 ==> vlvf[..] == old(vlvf[..]) && vfta[..] == old(vfta[..]) && table == old(table)
      ensures ret == 0 ==>
                forall v: bv32 :: table(v) == After(old(table), vid, add, vf, old(Room(vlvf[..])))(v)
      ensures var was := old(Longest(vlansEnabled, vmolr));
              Longest(vlansEnabled, vmolr) ==
              if ret == 0 && vf < vfs && old(Writes(table, vid, add, Room(vlvf[..]))) then Counted(was, add, vf)
              else was
    {
      if mac < E1000_82576 { return -1; }
      if vfs == 0 { return -1; }
      ret := 0;
      var written := SetPool(vid, add, vf);
      if !written || vf >= vfs { return; }
      if add {
        if vlansEnabled[vf] == 0 { vmolr := vmolr[vf := Resized(vmolr[vf], 4)]; }
        vlansEnabled := vlansEnabled[vf := Counter(vlansEnabled[vf], true)];
      } else {
        vlansEnabled := vlansEnabled[vf := Counter(vlansEnabled[vf], false)];
        if vlansEnabled[vf] == 0 { vmolr := vmolr[vf := Resized(vmolr[vf], 0xFFFF_FFFC)]; }
      }
    }
  }

  // ---------- the number of ids of a VF, which sets its longest packet ----------

  datatype Longest = Longest(enabled: seq<nat>, vmolr: seq<bv32>)

  /** vlans_enabled++ and vlans_enabled--, on 16 bits */
  function Counter(n: nat, add: bool): nat {
    (n + if add then 1 else 0xFFFF) % 0x1_0000
  }

  /** What one call writes to the counter of VF vf, and to its register at the first and at the last id. */
  function Counted(s: Longest, add: bool, vf: nat): Longest
    requires vf < |s.enabled| == |s.vmolr|
  {
    var n := Counter(s.enabled[vf], add);
    Longest(s.enabled[vf := n],
            if add && s.enabled[vf] == 0 then s.vmolr[vf := Resized(s.vmolr[vf], 4)]
            else if !add && n == 0 then s.vmolr[vf := Resized(s.vmolr[vf], 0xFFFF_FFFC)]
            else s.vmolr)
  }

  /** The low 14 bits of the register grow by 4, or shrink by 4, and the others stay. */
  lemma ResizedField(reg: bv32)
    ensures reg & 0x3FFF <= 0x3FFB ==> Resized(reg, 4) & 0x3FFF == (reg & 0x3FFF) + 4
    ensures reg & 0x3FFF >= 4 ==> Resized(reg, 0xFFFF_FFFC) & 0x3FFF == (reg & 0x3FFF) - 4
    ensures reg & 0x3FFF <= 0x3FFB ==> Resized(reg, 4) & 0xFFFF_C000 == reg & 0xFFFF_C000
    ensures reg & 0x3FFF >= 4 ==> Resized(reg, 0xFFFF_FFFC) & 0xFFFF_C000 == reg & 0xFFFF_C000
  {
  }

  /**
   * While the counter does not wrap, the register of a VF has the 4 bytes of a VLAN tag added to what it was exactly
   * as long as the VF has an id; the other VFs keep theirs.
   */
  lemma {:induction false} LongestKept(s: Longest, add: bool, vf: nat, base: bv32)
    requires vf < |s.enabled| == |s.vmolr| && base & 0x3FFF <= 0x3FFB
    requires s.vmolr[vf] == if s.enabled[vf] > 0 then Resized(base, 4) else base
    requires if add then s.enabled[vf] < 0xFFFF else 0 < s.enabled[vf] <= 0xFFFF
    ensures var s', n := Counted(s, add, vf), if add then s.enabled[vf] + 1 else s.enabled[vf] - 1;
            && s'.enabled == s.enabled[vf := n] && |s'.vmolr| == |s.vmolr|
            && s'.vmolr[vf] == (if n > 0 then Resized(base, 4) else base)
            && forall f | 0 <= f < |s.vmolr| && f != vf :: s'.vmolr[f] == s.vmolr[f]
  {
    BackAgain(base);
    hide Resized;
  }

  lemma BackAgain(base: bv32)
    requires base & 0x3FFF <= 0x3FFB
    ensures Resized(Resized(base, 4), 0xFFFF_FFFC) == base
  {
    ResizedBack(base);
    hide Resized;
    InsideField(base & 0x3FFF);
  }

  lemma InsideField(field: bv32)
    requires field <= 0x3FFB
    ensures field + 4 <= RLPML_MASK
  {
  }

  /** The last id takes away what the first one has added, if that stayed inside the field (or all above it is set). */
  lemma ResizedBack(reg: bv32)
    ensures Resized(Resized(reg, 4), 0xFFFF_FFFC) == reg <==>
            (reg & RLPML_MASK) + 4 <= RLPML_MASK || reg | RLPML_MASK == 0xFFFF_FFFF
  {
  }

  lemma RepresentsSizes(regs: seq<bv32>, vfta: seq<bv32>, table: Table)
    requires Represents(regs, vfta, table)
    ensures |regs| == ARRAY_SIZE && |vfta| == TBL_SIZE
  {
  }

  lemma {:induction false} EntryIs(regs: seq<bv32>, vfta: seq<bv32>, table: Table, i: nat)
    requires Represents(regs, vfta, table) && i < |regs|
    ensures Enabled(regs[i]) ==> table(Vid(regs[i])) == Pools(regs[i]) != {}
    ensures !Enabled(regs[i]) ==> regs[i] == 0 && Pools(regs[i]) == {}
  {
    hide Enabled, Vid, Pools, Filtered;
    ZeroWord();
  }

  lemma {:induction false} PoolKeepsEnabled(reg: bv32, vf: nat)
    requires vf < 8
    ensures Enabled(With(reg, PoolBit(vf))) == Enabled(reg)
  {
    hide Enabled, With, PoolBit, Hit, PoolMask;
    PoolBitIs(vf, 0);
    WithPoolIs(reg, PoolBit(vf), PoolBit(vf));
  }

  // ---------- how many ids fit ----------

  function EnabledVids(regs: seq<bv32>): set<bv32> {
    if regs == [] then {} else (if Enabled(regs[0]) then {Vid(regs[0])} else {}) + EnabledVids(regs[1..])
  }

  lemma {:induction false} EnabledCount(regs: seq<bv32>)
    requires forall i, j {:trigger regs[i], regs[j]} | 0 <= i < j < |regs| && Enabled(regs[i]) && Enabled(regs[j]) ::
               Vid(regs[i]) != Vid(regs[j])
    ensures forall vid: bv32 {:trigger vid in EnabledVids(regs)} :: vid in EnabledVids(regs) <==> EntryFor(regs, vid)
    ensures |EnabledVids(regs)| <= |regs| && (|EnabledVids(regs)| == |regs| <==> !Room(regs))
  {
    hide Enabled, Vid;
    if regs != [] {
      var rest := regs[1..];
      assert forall i | 0 <= i < |rest| :: rest[i] == regs[i + 1];
      EnabledCount(rest);
      forall vid: bv32 | true
        ensures EntryFor(regs, vid) <==> (Enabled(regs[0]) && Vid(regs[0]) == vid) || EntryFor(rest, vid)
      {
        EntryCons(regs, vid);
      }
      RoomCons(regs);
      if Enabled(regs[0]) {
        assert Vid(regs[0]) !in EnabledVids(rest);
      }
    }
  }

  lemma EntryCons(regs: seq<bv32>, vid: bv32)
    requires regs != []
    ensures EntryFor(regs, vid) <==> (Enabled(regs[0]) && Vid(regs[0]) == vid) || EntryFor(regs[1..], vid)
  {
    hide Enabled, Vid;
    if EntryFor(regs[1..], vid) {
      var i :| 0 <= i < |regs| - 1 && Enabled(regs[1..][i]) && Vid(regs[1..][i]) == vid;
      assert regs[i + 1] == regs[1..][i];
    }
    if EntryFor(regs, vid) {
      var i :| 0 <= i < |regs| && Enabled(regs[i]) && Vid(regs[i]) == vid;
      if i > 0 { assert regs[1..][i - 1] == regs[i]; }
    }
  }

  lemma RoomCons(regs: seq<bv32>)
    requires regs != []
    ensures Room(regs) <==> !Enabled(regs[0]) || Room(regs[1..])
  {
    hide Enabled, Vid;
    if Room(regs[1..]) {
      var i :| 0 <= i < |regs| - 1 && !Enabled(regs[1..][i]);
      assert regs[i + 1] == regs[1..][i];
    }
    if Room(regs) {
      var i :| 0 <= i < |regs| && !Enabled(regs[i]);
      if i > 0 { assert regs[1..][i - 1] == regs[i]; }
    }
  }

  /** A new id is taken as long as fewer than 32 are there. */
  lemma {:induction false} RoomBelow32(regs: seq<bv32>, vfta: seq<bv32>, table: Table)
    requires Represents(regs, vfta, table)
    ensures forall vid: bv32 {:trigger table(vid)} :: vid in EnabledVids(regs) <==> table(vid) != {}
    ensures |EnabledVids(regs)| <= ARRAY_SIZE && (Room(regs) <==> |EnabledVids(regs)| < ARRAY_SIZE)
  {
    hide Enabled, Vid, Pools, Filtered, EnabledVids, Room;
    EnabledCount(regs);
    forall vid: bv32 | true ensures table(vid) != {} <==> EntryFor(regs, vid) {
      if EntryFor(regs, vid) {
        var i :| 0 <= i < |regs| && Enabled(regs[i]) && Vid(regs[i]) == vid;
      }
    }
  }

  /**
   * After a call a VF is in the pool of an id as before, but for this VF and this id: there it is as asked, if the id
   * was in the table already, or if it is to be added and the table had fewer than 32 ids.
   */
  lemma {:induction false} TableAfter(regs: seq<bv32>, vfta: seq<bv32>, table: Table, vid: bv32, add: bool, vf: nat,
                                      v: bv32, f: nat)
    requires Represents(regs, vfta, table)
    ensures f in After(table, vid, add, vf, Room(regs))(v) <==>
            if v == vid && f == vf && (table(vid) != {} || (add && |EnabledVids(regs)| < 32)) then add
            else f in table(v)
    ensures Writes(table, vid, add, Room(regs)) <==> table(vid) != {} || (add && |EnabledVids(regs)| < 32)
  {
    hide Represents, EnabledVids, Room;
    RoomBelow32(regs, vfta, table);
  }

  /** The ids of a VF: those of the entries that have it in their pool. */
  function Members(regs: seq<bv32>, vf: nat): set<bv32> {
    set i | 0 <= i < |regs| && Enabled(regs[i]) && InPool(regs[i], vf) :: Vid(regs[i])
  }

  lemma {:induction false} MembersAre(regs: seq<bv32>, vfta: seq<bv32>, table: Table, vf: nat)
    requires Represents(regs, vfta, table)
    ensures forall v: bv32 {:trigger table(v)} :: v in Members(regs, vf) <==> vf in table(v)
    ensures |Members(regs, vf)| <= ARRAY_SIZE
  {
    hide Enabled, Vid, InPool, Filtered, EnabledVids, Room;
    forall v: bv32 | true ensures v in Members(regs, vf) <==> vf in table(v) {
      if vf in table(v) {
        assert table(v) != {};
        var i :| 0 <= i < |regs| && Enabled(regs[i]) && Vid(regs[i]) == v;
        assert InPool(regs[i], vf);
      }
      if v in Members(regs, vf) {
        var i :| 0 <= i < |regs| && Enabled(regs[i]) && InPool(regs[i], vf) && Vid(regs[i]) == v;
        PoolBelow(regs[i], vf);
      }
    }
    RoomBelow32(regs, vfta, table);
    forall v | v in Members(regs, vf) ensures v in EnabledVids(regs) { assert table(v) != {}; }
    SubsetSize(Members(regs, vf), EnabledVids(regs));
  }

  lemma PoolBelow(reg: bv32, vf: nat)
    requires InPool(reg, vf)
    ensures vf in Pools(reg)
  {
  }

  /**
   * The counter stays the number of ids of the VF exactly if a call that finds an entry changes its pool: adding a VF
   * twice, or removing one that is not there, makes it wrong.
   */
  lemma {:induction false} CounterExactIff(regs: seq<bv32>, vfta: seq<bv32>, table: Table, regs': seq<bv32>,
                                           vfta': seq<bv32>, table': Table, vid: bv32, add: bool, vf: nat)
    requires Represents(regs, vfta, table) && Represents(regs', vfta', table')
    requires forall v: bv32 :: table'(v) == After(table, vid, add, vf, Room(regs))(v)
    ensures var n, writes := |Members(regs, vf)|, Writes(table, vid, add, Room(regs));
            (if writes then Counter(n, add) else n) == |Members(regs', vf)| <==>
            (writes ==> (vf in table(vid)) != add)
  {
    hide Represents, Members, Room, Counter, After, Writes;
    MembersAre(regs, vfta, table, vf);
    MembersAre(regs', vfta', table', vf);
    var was, now, writes := Members(regs, vf), Members(regs', vf), Writes(table, vid, add, Room(regs));
    forall v: bv32 | true ensures v in now <==> if v == vid && writes then add else v in was {
      assert table'(v) == After(table, vid, add, vf, Room(regs))(v);
      AfterIs(table, vid, add, vf, Room(regs), v);
    }
    assert now == if !writes then was else if add then was + {vid} else was - {vid};
    CounterMoves(|was|, add);
  }

  lemma AfterIs(table: Table, vid: bv32, add: bool, vf: nat, room: bool, v: bv32)
    ensures vf in After(table, vid, add, vf, room)(v) <==>
            if v == vid && Writes(table, vid, add, room) then add else vf in table(v)
  {
  }

  lemma CounterMoves(n: nat, add: bool)
    requires n <= ARRAY_SIZE
    ensures Counter(n, add) == if add then n + 1 else if n > 0 then n - 1 else 0xFFFF
  {
  }
}
