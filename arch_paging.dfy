/**
 * x86-64 boot structures: segment descriptors, page-table entries, the
 * 4-level translation they describe, and the bump allocator that hands out
 * the frames of the boot page tables.
 *
 * Page-table memory is viewed as an array of 64-bit little-endian words:
 * word `w` of a memory region that starts at guest-physical address `base`
 * holds the bytes at `base + 8 * w .. base + 8 * w + 8`.
 */
module ArchPaging {
  import opened Common
  import opened Consts

  // ---------------------------------------------------------------------
  // Segment descriptors (section 3.4.5 of the Intel SDM, Vol. 3A)
  // ---------------------------------------------------------------------

  /**
   * Packs a conventional code/data segment descriptor: limit[15:0] into bits
   * 0-15, base[23:0] into bits 16-39, the access byte and the flag nibble
   * (`flags & 0xf0ff`) into bits 40-55, limit[19:16] into bits 48-51 and
   * base[31:24] into bits 56-63.
   */
  function CreateGdtEntry(flags: bv64, base: bv64, limit: bv64): bv64 {
    // The source writes the two 32-bit shifts as `56 - 24` and `48 - 16`.
    ((base & 0xff000000) << 32)
      | ((flags & 0x0000f0ff) << 40)
      | ((limit & 0x000f0000) << 32)
      | ((base & 0x00ffffff) << 16)
      | (limit & 0x0000ffff)
  }

  /** The flag fields (access byte and flag nibble) stored in a descriptor. */
  function GdtFlags(e: bv64): bv64 {
    (e >> 40) & 0xF0FF
  }

  /** The 32-bit segment base stored in a descriptor. */
  function GdtBase(e: bv64): bv64 {
    ((e >> 16) & 0xFF_FFFF) | ((e >> 56) << 24)
  }

  /** The 20-bit segment limit stored in a descriptor. */
  function GdtLimit(e: bv64): bv64 {
    (e & 0xFFFF) | (((e >> 48) & 0xF) << 16)
  }

  /** The fields do not overlap: every masked input is recovered from the descriptor. */
  lemma GdtFieldsRecovered(flags: bv64, base: bv64, limit: bv64)
    ensures GdtFlags(CreateGdtEntry(flags, base, limit)) == flags & 0xF0FF
    ensures GdtBase(CreateGdtEntry(flags, base, limit)) == base & 0xFFFF_FFFF
    ensures GdtLimit(CreateGdtEntry(flags, base, limit)) == limit & 0xF_FFFF
  {
    GdtFlagsRecovered(flags, base, limit);
    GdtBaseRecovered(flags, base, limit);
    GdtLimitRecovered(flags, base, limit);
  }

  lemma GdtFlagsRecovered(flags: bv64, base: bv64, limit: bv64)
    ensures GdtFlags(CreateGdtEntry(flags, base, limit)) == flags & 0xF0FF
  {
  }

  lemma GdtBaseRecovered(flags: bv64, base: bv64, limit: bv64)
    ensures GdtBase(CreateGdtEntry(flags, base, limit)) == base & 0xFFFF_FFFF
  {
  }

  lemma GdtLimitRecovered(flags: bv64, base: bv64, limit: bv64)
    ensures GdtLimit(CreateGdtEntry(flags, base, limit)) == limit & 0xF_FFFF
  {
  }

  /** Every 64-bit word is the descriptor of its own fields: packing is onto. */
  lemma GdtEntryFromFields(e: bv64)
    ensures CreateGdtEntry(GdtFlags(e), GdtBase(e), GdtLimit(e)) == e
  {
  }

  /** The 64-bit code and the data descriptor of the boot GDT. */
  lemma BootGdtValues()
    ensures CreateGdtEntry(0xA09B, 0, 0xFFFFF) == 0xAF9B000000FFFF
    ensures CreateGdtEntry(0xC093, 0, 0xFFFFF) == 0xCF93000000FFFF
  {
  }

  /** The boot GDT's code descriptor, as stored in memory. */
  function GdtCodeEntry(): u64 {
    CreateGdtEntry(0xA09B, 0, 0xFFFFF) as int
  }

  /** The boot GDT's data descriptor, as stored in memory. */
  function GdtDataEntry(): u64 {
    CreateGdtEntry(0xC093, 0, 0xFFFFF) as int
  }

  // ---------------------------------------------------------------------
  // Page-table entries (section 4.5 of the Intel SDM, Vol. 3A)
  // ---------------------------------------------------------------------

  const PRESENT: nat := 0x1
  const WRITABLE: nat := 0x2
  const HUGE_PAGE: nat := 0x80

  /** Flags of every intermediate boot table entry. */
  const TABLE_FLAGS: nat := PRESENT + WRITABLE
  /** Flags of every 2 MiB leaf entry. */
  const HUGE_FLAGS: nat := PRESENT + WRITABLE + HUGE_PAGE

  /** Physical addresses are below 2^52. */
  const MAX_PHYS: nat := 0x10_0000_0000_0000

  predicate FrameAddress(a: nat) {
    a % PAGE_SIZE == 0 && a < MAX_PHYS
  }

  /**
   * `set_addr(addr, flags)`: the entry is `addr | flags`; the address is
   * page aligned and the flags lie below bit 12, so the OR is a sum.
   */
  function MakeEntry(addr: nat, flags: nat): (e: u64)
    requires FrameAddress(addr) && flags < PAGE_SIZE
  {
    addr + flags
  }

  predicate Present(e: u64) {
    e % 2 == 1
  }

  predicate Writable(e: u64) {
    (e / 2) % 2 == 1
  }

  predicate Huge(e: u64) {
    (e / 0x80) % 2 == 1
  }

  /** The physical address held in bits 12-51 of an entry. */
  function EntryAddr(e: u64): (a: nat)
    ensures FrameAddress(a)
  {
    (e % MAX_PHYS) / PAGE_SIZE * PAGE_SIZE
  }

  /** Adding flags below bit 12 to a frame number leaves both recoverable. */
  lemma FrameAndFlags(k: nat, flags: nat)
    requires flags < PAGE_SIZE
    ensures (k * PAGE_SIZE + flags) / PAGE_SIZE == k
    ensures (k * PAGE_SIZE + flags) % 2 == flags % 2
    ensures (k * PAGE_SIZE + flags) / 2 == k * 2048 + flags / 2
    ensures (k * PAGE_SIZE + flags) / 0x80 == k * 32 + flags / 0x80
  {
  }

  /** An entry built by `set_addr` yields back its address and its flag bits. */
  lemma MakeEntryFields(addr: nat, flags: nat)
    requires FrameAddress(addr) && flags < PAGE_SIZE
    ensures EntryAddr(MakeEntry(addr, flags)) == addr
    ensures Present(MakeEntry(addr, flags)) <==> flags % 2 == 1
    ensures Writable(MakeEntry(addr, flags)) <==> (flags / 2) % 2 == 1
    ensures Huge(MakeEntry(addr, flags)) <==> (flags / 0x80) % 2 == 1
  {
    MakeEntryAddr(addr, flags);
    MakeEntryFlags(addr, flags);
  }

  lemma MakeEntryAddr(addr: nat, flags: nat)
    requires FrameAddress(addr) && flags < PAGE_SIZE
    ensures EntryAddr(MakeEntry(addr, flags)) == addr
  {
    var k := addr / PAGE_SIZE;
    assert addr == k * PAGE_SIZE;
    assert k < 0x100_0000_0000;
    var e := MakeEntry(addr, flags);
    assert e < MAX_PHYS;
    assert e % MAX_PHYS == e;
    FrameAndFlags(k, flags);
  }

  lemma MakeEntryFlags(addr: nat, flags: nat)
    requires FrameAddress(addr) && flags < PAGE_SIZE
    ensures Present(MakeEntry(addr, flags)) <==> flags % 2 == 1
    ensures Writable(MakeEntry(addr, flags)) <==> (flags / 2) % 2 == 1
    ensures Huge(MakeEntry(addr, flags)) <==> (flags / 0x80) % 2 == 1
  {
    var k := addr / PAGE_SIZE;
    var e := MakeEntry(addr, flags);
    assert e == k * PAGE_SIZE + flags;
    FlagBit(e, k, flags, 1);
    FlagBit(e, k, flags, 2);
    FlagBit(e, k, flags, 0x80);
  }

  /** Bit `b` of a frame number's address plus flags is the bit of the flags, for bits below 12. */
  lemma FlagBit(e: nat, k: nat, flags: nat, b: nat)
    requires e == k * PAGE_SIZE + flags
    requires b == 1 || b == 2 || b == 0x80
    ensures (e / b) % 2 == (flags / b) % 2
  {
    if b == 1 {
      assert e == 2 * (k * 2048) + flags;
    } else if b == 2 {
      assert e / 2 == 2 * (k * 1024) + flags / 2;
    } else {
      assert e / 0x80 == 2 * (k * 16) + flags / 0x80;
    }
  }

  /** The two flag sets used at boot, as the bits they set. */
  lemma BootFlagBits()
    ensures TABLE_FLAGS % 2 == 1 && (TABLE_FLAGS / 2) % 2 == 1 && (TABLE_FLAGS / 0x80) % 2 == 0
    ensures HUGE_FLAGS % 2 == 1 && (HUGE_FLAGS / 2) % 2 == 1 && (HUGE_FLAGS / 0x80) % 2 == 1
  {
  }

  // ---------------------------------------------------------------------
  // The translation described by the tables
  // ---------------------------------------------------------------------

  function P4Index(va: nat): nat { (va / 0x80_0000_0000) % TABLE_ENTRIES }
  function P3Index(va: nat): nat { (va / 0x4000_0000) % TABLE_ENTRIES }
  function P2Index(va: nat): nat { (va / GUEST_PAGE_SIZE) % TABLE_ENTRIES }

  /** Word index of entry `idx` of the table at physical address `table`. */
  function Slot(base: nat, table: nat, idx: nat): int {
    (table - base) / ENTRY_SIZE + idx
  }

  /** Entry `idx` of the table at physical address `table`, if it lies in `mem`. */
  function EntryAt(mem: seq<u64>, base: nat, table: nat, idx: nat): Option<u64> {
    var w := Slot(base, table, idx);
    if base <= table && 0 <= w < |mem| then Some(mem[w]) else None
  }

  /** The tables visited when translating an address mapped by a 2 MiB page. */
  datatype Walked = Walked(pdpt: nat, pd: nat, pde: u64)

  /**
   * The walk PML4 -> PDPT -> PD for `va`: `None` when an entry on the way is
   * not present, lies outside `mem`, or when the PDPT entry is a 1 GiB page.
   */
  function Walk(mem: seq<u64>, base: nat, pml4: nat, va: nat): Option<Walked> {
    match EntryAt(mem, base, pml4, P4Index(va))
    case None => None
    case Some(e4) =>
      if !Present(e4) then None
      else
        var pdpt := EntryAddr(e4);
        match EntryAt(mem, base, pdpt, P3Index(va))
        case None => None
        case Some(e3) =>
          if !Present(e3) || Huge(e3) then None
          else
            var pd := EntryAddr(e3);
            match EntryAt(mem, base, pd, P2Index(va))
            case None => None
            case Some(e2) =>
              if Present(e2) then Some(Walked(pdpt, pd, e2)) else None
  }

  /** The physical address `va` translates to through a 2 MiB page, if any. */
  function Translate(mem: seq<u64>, base: nat, pml4: nat, va: nat): Option<nat> {
    match Walk(mem, base, pml4, va)
    case None => None
    case Some(w) =>
      if Huge(w.pde) then Some(EntryAddr(w.pde) + va % GUEST_PAGE_SIZE) else None
  }

  /** `va`'s 2 MiB page is mapped to `frame` with PRESENT, WRITABLE and HUGE_PAGE. */
  predicate MapsHuge(mem: seq<u64>, base: nat, pml4: nat, va: nat, frame: nat)
    requires FrameAddress(frame)
  {
    Walk(mem, base, pml4, va).Some? && Walk(mem, base, pml4, va).value.pde == MakeEntry(frame, HUGE_FLAGS)
  }

  /** A huge leaf entry for the start of `va`'s own 2 MiB page identity-maps `va`. */
  lemma MapsHugeTranslates(mem: seq<u64>, base: nat, pml4: nat, va: nat)
    requires va < MAX_PHYS
    requires FrameAddress(va / GUEST_PAGE_SIZE * GUEST_PAGE_SIZE)
    requires MapsHuge(mem, base, pml4, va, va / GUEST_PAGE_SIZE * GUEST_PAGE_SIZE)
    ensures Translate(mem, base, pml4, va) == Some(va)
  {
    var frame := va / GUEST_PAGE_SIZE * GUEST_PAGE_SIZE;
    MakeEntryFields(frame, HUGE_FLAGS);
    BootFlagBits();
  }

  // ---------------------------------------------------------------------
  // The boot frame allocator
  // ---------------------------------------------------------------------

  /** The frames `start, start + 4 KiB, ...`, `n` of them. */
  function Frames(start: nat, n: nat): (fs: seq<nat>)
    ensures |fs| == n
  {
    seq(n, i => start + i * PAGE_SIZE)
  }

  /**
   * The frames of a bump allocator are distinct, consecutive, page aligned
   * and lie in `[start, start + n * 4 KiB)`.
   */
  lemma {:induction false} FramesLayout(start: nat, n: nat)
    requires PageAligned(start)
    ensures forall i :: 0 <= i < n ==> PageAligned(Frames(start, n)[i])
    ensures forall i :: 0 <= i < n ==> start <= Frames(start, n)[i] < start + n * PAGE_SIZE
    ensures forall i :: 0 <= i < n - 1 ==> Frames(start, n)[i + 1] == Frames(start, n)[i] + PAGE_SIZE
    ensures forall i, j :: 0 <= i < j < n ==> Frames(start, n)[i] < Frames(start, n)[j]
  {
    forall i | 0 <= i < n
      ensures PageAligned(Frames(start, n)[i])
      ensures start <= Frames(start, n)[i] < start + n * PAGE_SIZE
    {
      assert Frames(start, n)[i] == start + i * PAGE_SIZE;
      assert start / PAGE_SIZE * PAGE_SIZE == start;
      assert start + i * PAGE_SIZE == (start / PAGE_SIZE + i) * PAGE_SIZE;
    }
  }

  /** A bump allocator for the frames of the initial page tables. */
  class BumpAllocator {
    const start: nat
    const length: nat
    var cnt: nat

    /** The frames handed out so far, in order. */
    ghost var handedOut: seq<nat>

    ghost predicate Valid()
      reads this
    {
      PageAligned(start) && cnt <= length && handedOut == Frames(start, cnt)
    }

    /** An allocator over `length` frames at `start`, which must be 4 KiB aligned. */
    constructor (start: nat, length: nat)
      requires PageAligned(start)
      ensures Valid()
      ensures this.start == start && this.length == length && cnt == 0 && handedOut == []
    {
      this.start := start;
      this.length := length;
      cnt := 0;
      handedOut := [];
    }

    /**
     * Hands out the next frame while fewer than `length` were handed out,
     * and `None` (changing nothing) afterwards.
     */
    method AllocateFrame() returns (f: Option<nat>)
      requires Valid()
      modifies this
      ensures Valid()
      ensures old(cnt) < length ==> f == Some(start + old(cnt) * PAGE_SIZE) && cnt == old(cnt) + 1
      ensures old(cnt) < length ==> handedOut == old(handedOut) + [f.value]
      ensures old(cnt) >= length ==> f == None && cnt == old(cnt) && handedOut == old(handedOut)
    {
      if cnt < length {
        f := Some(start + cnt * PAGE_SIZE);
        cnt := cnt + 1;
        handedOut := handedOut + [f.value];
        assert handedOut == Frames(start, cnt);
      } else {
        f := None;
      }
    }
  }

  // ---------------------------------------------------------------------
  // `initialize_pagetables`: the identity map of the guest
  // ---------------------------------------------------------------------

  /** Virtual addresses at or above 2^47 are not canonical; `VirtAddr::new` panics on them. */
  const CANONICAL_LIMIT: nat := 0x8000_0000_0000
  /** 2 MiB pages per PD (1 GiB) and per PDPT (512 GiB). */
  const PAGES_PER_PD: nat := 0x200
  const PAGES_PER_PDPT: nat := 0x4_0000

  /**
   * One run of `initialize_pagetables`: guest memory starts at the
   * guest-physical address `guest`; the bump allocator hands out
   * `frameCount` table frames from `guest + tablesOffset` on; `length`
   * bytes from `guest` on are identity-mapped with 2 MiB pages. Word `w`
   * of the memory holds the bytes at `guest + 8 * w`.
   *
   * Pages are numbered by `address / 2 MiB`. Page `p` lies in the 1 GiB
   * region `p / 512` (one PD each) and in the 512 GiB region `p / 2^18`
   * (one PDPT each).
   */
  datatype TableLayout = TableLayout(guest: nat, tablesOffset: nat, frameCount: nat, length: nat)
  {
    /** The first page mapped, and the number of pages: `step_by(2 MiB)` over `[guest, guest + length)`. */
    function P0(): nat { guest / GUEST_PAGE_SIZE }
    function Pages(): nat { (length + GUEST_PAGE_SIZE - 1) / GUEST_PAGE_SIZE }
    function G0(): nat { P0() / PAGES_PER_PD }
    function R0(): nat { P0() / PAGES_PER_PDPT }

    /** Step `n` maps page `StepPage(n)`, which lies in PD `StepG(n)` and PDPT `StepR(n)`. */
    function StepPage(n: nat): nat { P0() + n }
    function StepG(n: nat): nat { StepPage(n) / PAGES_PER_PD }
    function StepR(n: nat): nat { StepPage(n) / PAGES_PER_PDPT }
    /** The frames taken once step `n` has the PDPT of its page. */
    function UsedWithPdpt(n: nat): nat { Used(n) + (if InR(n, StepR(n)) then 0 else 1) }

    /** After the first `n` pages: PDPT `r`, PD `g` and page `p` are in use. */
    predicate InR(n: nat, r: int) { n > 0 && R0() <= r && r * PAGES_PER_PDPT < P0() + n }
    predicate InG(n: nat, g: int) { n > 0 && G0() <= g && g * PAGES_PER_PD < P0() + n }
    predicate InP(n: nat, p: int) { P0() <= p < P0() + n }

    /** The number of table frames the first `n` pages take: one per PDPT and one per PD in use. */
    function Used(n: nat): nat {
      if n == 0 then 0
      else ((P0() + n - 1) / PAGES_PER_PDPT - R0() + 1) + ((P0() + n - 1) / PAGES_PER_PD - G0() + 1)
    }

    /**
     * The allocator frame of PDPT `r` and of PD `g`. Frames are taken in
     * page order: the PDPT of a region right before its first PD.
     */
    function PdptFrame(r: int): int { (r - R0()) + (if r == R0() then 0 else r * PAGES_PER_PD - G0()) }
    function PdFrame(g: int): int { (g - G0()) + (g / PAGES_PER_PD - R0()) + 1 }

    function FrameAddr(k: int): int { guest + tablesOffset + k * PAGE_SIZE }
    function FrameWord(k: int): int { tablesOffset / ENTRY_SIZE + k * TABLE_ENTRIES }
    function Pml4Word(): nat { PML4_OFFSET / ENTRY_SIZE }
    function GdtWord(): nat { GDT_OFFSET / ENTRY_SIZE }
    /** The word holding the bytes at guest-physical address `a`. */
    function WordOf(a: int): int { (a - guest) / ENTRY_SIZE }

    /** What `initialize_pagetables` demands: alignment, canonical addresses, enough frames, no overlap with the GDT and the PML4. */
    predicate Ok() {
      guest % GUEST_PAGE_SIZE == 0 && tablesOffset % PAGE_SIZE == 0
      && guest + length <= CANONICAL_LIMIT
      && Used(Pages()) <= frameCount
      && guest + tablesOffset + frameCount * PAGE_SIZE <= MAX_PHYS
      && guest + MIN_PHYSMEM_SIZE <= MAX_PHYS
      && (tablesOffset + frameCount * PAGE_SIZE <= GDT_OFFSET || GDT_OFFSET + PAGE_SIZE <= tablesOffset)
      && (tablesOffset + frameCount * PAGE_SIZE <= PML4_OFFSET || PML4_OFFSET + PAGE_SIZE <= tablesOffset)
    }

    /** PML4 entry `i` after `n` pages: the recursive slot 511, or the PDPT of region `i`. */
    function Pml4Want(n: nat, i: int): int {
      if i == 511 then guest + PML4_OFFSET + TABLE_FLAGS
      else if InR(n, i) then FrameAddr(PdptFrame(i)) + TABLE_FLAGS
      else 0
    }

    /** Entry `i` of PDPT `r` after `n` pages: the PD of region `r * 512 + i`. */
    function PdptWant(n: nat, r: int, i: int): int {
      if InG(n, r * PAGES_PER_PD + i) then FrameAddr(PdFrame(r * PAGES_PER_PD + i)) + TABLE_FLAGS else 0
    }

    /** Entry `i` of PD `g` after `n` pages: the huge page `g * 512 + i`, identity-mapped. */
    function PdWant(n: nat, g: int, i: int): int {
      if InP(n, g * PAGES_PER_PD + i) then (g * PAGES_PER_PD + i) * GUEST_PAGE_SIZE + HUGE_FLAGS else 0
    }
  }

  /** The PML4 of memory `m` holds the entries for the first `n` pages. */
  predicate Pml4Ok(lay: TableLayout, m: seq<u64>, n: nat) {
    forall i: int :: 0 <= i < TABLE_ENTRIES ==> Pml4EntryOk(lay, m, i, n)
  }

  /** Entry `i` of the PML4 in `m` is in memory and is the one for the first `n` pages. */
  predicate Pml4EntryOk(lay: TableLayout, m: seq<u64>, i: int, n: nat) {
    0 <= lay.Pml4Word() + i < |m| && m[lay.Pml4Word() + i] == lay.Pml4Want(n, i)
  }

  /** Entry `i` of PDPT `r` in `m` is in memory and is the one for the first `n` pages. */
  predicate PdptEntryOk(lay: TableLayout, m: seq<u64>, r: int, i: int, n: nat) {
    0 <= lay.FrameWord(lay.PdptFrame(r)) + i < |m| && m[lay.FrameWord(lay.PdptFrame(r)) + i] == lay.PdptWant(n, r, i)
  }

  /** Entry `i` of PD `g` in `m` is in memory and is the one for the first `n` pages. */
  predicate PdEntryOk(lay: TableLayout, m: seq<u64>, g: int, i: int, n: nat) {
    0 <= lay.FrameWord(lay.PdFrame(g)) + i < |m| && m[lay.FrameWord(lay.PdFrame(g)) + i] == lay.PdWant(n, g, i)
  }

  /** The PDPTs in use after `nr` pages hold the entries for the first `ng` pages. */
  ghost predicate PdptOk(lay: TableLayout, m: seq<u64>, nr: nat, ng: nat) {
    forall r: int, i: int :: lay.InR(nr, r) && 0 <= i < TABLE_ENTRIES ==> PdptEntryOk(lay, m, r, i, ng)
  }

  /** The PDs in use after `ng` pages hold the entries for the first `np` pages. */
  ghost predicate PdOk(lay: TableLayout, m: seq<u64>, ng: nat, np: nat) {
    forall g: int, i: int :: lay.InG(ng, g) && 0 <= i < TABLE_ENTRIES ==> PdEntryOk(lay, m, g, i, np)
  }

  /** The tables of `m` map exactly the first `n` pages. */
  ghost predicate Mapped(lay: TableLayout, m: seq<u64>, n: nat) {
    Pml4Ok(lay, m, n) && PdptOk(lay, m, n, n) && PdOk(lay, m, n, n)
  }

  /** Only the PML4 and the first `used` allocator frames of `m` differ from `m0`. */
  predicate OnlyTablesChanged(lay: TableLayout, m0: seq<u64>, m: seq<u64>, used: nat) {
    |m| == |m0|
    && forall w ::
         (0 <= w < |m| && !(lay.Pml4Word() <= w < lay.Pml4Word() + TABLE_ENTRIES)
          && !(lay.FrameWord(0) <= w < lay.FrameWord(used)))
         ==> m[w] == m0[w]
  }

  /** `m` with the table at word `fw` zeroed (`PageTable::zero`). */
  function Zeroed(m: seq<u64>, fw: nat): (r: seq<u64>)
    requires fw + TABLE_ENTRIES <= |m|
    ensures |r| == |m|
    ensures forall w :: fw <= w < fw + TABLE_ENTRIES ==> r[w] == 0
    ensures forall w :: 0 <= w < |m| && !(fw <= w < fw + TABLE_ENTRIES) ==> r[w] == m[w]
  {
    m[..fw] + seq(TABLE_ENTRIES, _ => 0) + m[fw + TABLE_ENTRIES..]
  }

  /** Page `p` lies at slot `p % 512` of PD `p / 512`, whose entry is slot `(p / 512) % 512` of PDPT `p / 2^18`. */
  lemma PageRegions(p: nat)
    ensures p / PAGES_PER_PDPT == (p / PAGES_PER_PD) / PAGES_PER_PD
    ensures (p / PAGES_PER_PD) * PAGES_PER_PD + p % PAGES_PER_PD == p
    ensures (p / PAGES_PER_PDPT) * PAGES_PER_PD + (p / PAGES_PER_PD) % PAGES_PER_PD == p / PAGES_PER_PD
  {
  }

  /** The table indices of the start of a canonical page `p` are its region slots; its PML4 slot is below 256. */
  lemma IndicesOfPage(p: nat)
    requires p * GUEST_PAGE_SIZE < CANONICAL_LIMIT
    ensures P4Index(p * GUEST_PAGE_SIZE) == p / PAGES_PER_PDPT < 256
    ensures P3Index(p * GUEST_PAGE_SIZE) == (p / PAGES_PER_PD) % PAGES_PER_PD
    ensures P2Index(p * GUEST_PAGE_SIZE) == p % PAGES_PER_PD
  {
    var va := p * GUEST_PAGE_SIZE;
    assert va / GUEST_PAGE_SIZE == p;
    var g := p / PAGES_PER_PD;
    assert va == g * 0x4000_0000 + (p % PAGES_PER_PD) * GUEST_PAGE_SIZE;
    assert va / 0x4000_0000 == g;
    var r := p / PAGES_PER_PDPT;
    assert va == r * 0x80_0000_0000 + (p % PAGES_PER_PDPT) * GUEST_PAGE_SIZE;
    assert va / 0x80_0000_0000 == r;
  }

  /** A frame's word index is the allocator's first word plus 512 words per frame. */
  lemma WordOfFrame(lay: TableLayout, k: nat)
    requires lay.tablesOffset % PAGE_SIZE == 0
    ensures lay.WordOf(lay.FrameAddr(k)) == lay.FrameWord(k)
    ensures lay.FrameWord(k) * ENTRY_SIZE == lay.tablesOffset + k * PAGE_SIZE
  {
    var t := lay.tablesOffset / PAGE_SIZE;
    assert lay.tablesOffset == t * PAGE_SIZE;
    assert lay.tablesOffset / ENTRY_SIZE == t * TABLE_ENTRIES;
    assert lay.FrameAddr(k) - lay.guest == (t + k) * TABLE_ENTRIES * ENTRY_SIZE;
  }

  /** Frames below `frameCount` are page-aligned physical addresses. */
  lemma FrameIsAddress(lay: TableLayout, k: nat)
    requires lay.Ok() && k < lay.frameCount
    ensures FrameAddress(lay.FrameAddr(k))
  {
    var a := lay.guest / GUEST_PAGE_SIZE;
    var t := lay.tablesOffset / PAGE_SIZE;
    assert lay.FrameAddr(k) == (a * TABLE_ENTRIES + t + k) * PAGE_SIZE;
    assert k * PAGE_SIZE < lay.frameCount * PAGE_SIZE;
  }

  /** The table frames of the PDPTs and PDs in use after `n` pages are among the first `Used(n)`. */
  lemma PdptFrameBound(lay: TableLayout, n: nat, r: int)
    requires lay.InR(n, r)
    ensures 0 <= lay.PdptFrame(r) < lay.Used(n)
  {
    var last := lay.P0() + n - 1;
    PageRegions(last);
    PageRegions(lay.P0());
    if r != lay.R0() {
      assert r * PAGES_PER_PD * PAGES_PER_PD <= last;
      assert r * PAGES_PER_PD <= last / PAGES_PER_PD;
      assert r <= last / PAGES_PER_PDPT;
    }
  }

  lemma PdFrameBound(lay: TableLayout, n: nat, g: int)
    requires lay.InG(n, g)
    ensures 1 <= lay.PdFrame(g) < lay.Used(n)
  {
    var last := lay.P0() + n - 1;
    PageRegions(last);
    PageRegions(lay.P0());
    assert g <= last / PAGES_PER_PD;
    assert g / PAGES_PER_PD <= (last / PAGES_PER_PD) / PAGES_PER_PD;
    assert g / PAGES_PER_PD >= lay.G0() / PAGES_PER_PD;
  }

  /** Distinct PDPTs and distinct PDs have distinct frames, and no PD shares a frame with a PDPT. */
  lemma PdptFramesDistinct(lay: TableLayout, r1: int, r2: int)
    requires lay.R0() <= r1 < r2
    ensures lay.PdptFrame(r1) < lay.PdptFrame(r2)
  {
    PageRegions(lay.P0());
  }

  lemma PdFramesDistinct(lay: TableLayout, g1: int, g2: int)
    requires lay.G0() <= g1 < g2
    ensures lay.PdFrame(g1) < lay.PdFrame(g2)
  {
  }

  lemma PdptPdFramesDistinct(lay: TableLayout, r: int, g: int)
    requires lay.R0() <= r && lay.G0() <= g
    ensures lay.PdptFrame(r) != lay.PdFrame(g)
  {
    PageRegions(lay.P0());
    assert g / PAGES_PER_PD >= lay.R0();
    if g / PAGES_PER_PD < r {
      assert g < r * PAGES_PER_PD;
    } else if r != lay.R0() {
      assert g >= r * PAGES_PER_PD;
    }
  }

  /**
   * Mapping page `P0() + n` puts its PDPT, its PD and the page itself in
   * use. A PDPT that was not in use yet gets the next frame, and so does a
   * PD that was not in use yet, right after it.
   */
  lemma StepRegions(lay: TableLayout, n: nat)
    ensures var p := lay.P0() + n;
            lay.InR(n + 1, p / PAGES_PER_PDPT) && lay.InG(n + 1, p / PAGES_PER_PD)
            && lay.InP(n + 1, p) && !lay.InP(n, p)
    ensures var p := lay.P0() + n;
            !lay.InR(n, p / PAGES_PER_PDPT) ==> !lay.InG(n, p / PAGES_PER_PD)
    ensures var p := lay.P0() + n;
            !lay.InR(n, p / PAGES_PER_PDPT) ==> lay.PdptFrame(p / PAGES_PER_PDPT) == lay.Used(n)
    ensures var p := lay.P0() + n;
            !lay.InG(n, p / PAGES_PER_PD) ==>
              lay.PdFrame(p / PAGES_PER_PD) == lay.Used(n) + (if lay.InR(n, p / PAGES_PER_PDPT) then 0 else 1)
    ensures var p := lay.P0() + n;
            lay.Used(n + 1) == lay.Used(n) + (if lay.InR(n, p / PAGES_PER_PDPT) then 0 else 1)
                                            + (if lay.InG(n, p / PAGES_PER_PD) then 0 else 1)
  {
    var p := lay.P0() + n;
    PageRegions(p);
    PageRegions(lay.P0());
    if n > 0 {
      PageRegions(p - 1);
      if p % PAGES_PER_PD == 0 {
        assert (p - 1) / PAGES_PER_PD == p / PAGES_PER_PD - 1;
      } else {
        assert (p - 1) / PAGES_PER_PD == p / PAGES_PER_PD;
      }
      if p % PAGES_PER_PDPT == 0 {
        assert (p - 1) / PAGES_PER_PDPT == p / PAGES_PER_PDPT - 1;
      } else {
        assert (p - 1) / PAGES_PER_PDPT == p / PAGES_PER_PDPT;
      }
    }
  }

  /** Mapping page `P0() + n` changes the use of no other PDPT, PD or page. */
  lemma StepKeepsOthers(lay: TableLayout, n: nat, r: int, g: int, q: int)
    ensures r != (lay.P0() + n) / PAGES_PER_PDPT ==> (lay.InR(n + 1, r) <==> lay.InR(n, r))
    ensures g != (lay.P0() + n) / PAGES_PER_PD ==> (lay.InG(n + 1, g) <==> lay.InG(n, g))
    ensures q != lay.P0() + n ==> (lay.InP(n + 1, q) <==> lay.InP(n, q))
  {
    var p := lay.P0() + n;
    PageRegions(p);
    PageRegions(lay.P0());
  }

  /** A PDPT not yet in use has no PD in use, and a PD not yet in use has no page in use. */
  lemma NewTableEmpty(lay: TableLayout, n: nat, r: int, g: int, i: int)
    requires 0 <= i < TABLE_ENTRIES
    ensures r == (lay.P0() + n) / PAGES_PER_PDPT && !lay.InR(n, r) ==> !lay.InG(n, r * PAGES_PER_PD + i)
    ensures g == (lay.P0() + n) / PAGES_PER_PD && !lay.InG(n, g) ==> !lay.InP(n, g * PAGES_PER_PD + i)
  {
    var p := lay.P0() + n;
    PageRegions(p);
    PageRegions(lay.P0());
  }

  /** More pages never take fewer frames. */
  lemma {:induction false} UsedMonotone(lay: TableLayout, n1: nat, n2: nat)
    requires n1 <= n2
    ensures lay.Used(n1) <= lay.Used(n2)
    decreases n2 - n1
  {
    if n1 < n2 {
      StepRegions(lay, n1);
      UsedMonotone(lay, n1 + 1, n2);
    }
  }

  /** The pages to map start below the canonical limit. */
  lemma PageBelowEnd(lay: TableLayout, n: nat)
    requires lay.Ok() && n < lay.Pages()
    ensures (lay.P0() + n) * GUEST_PAGE_SIZE < lay.guest + lay.length <= CANONICAL_LIMIT
    ensures lay.Used(n + 1) <= lay.frameCount
  {
    assert lay.guest == lay.P0() * GUEST_PAGE_SIZE;
    assert (n + 1) * GUEST_PAGE_SIZE <= lay.length + GUEST_PAGE_SIZE - 1;
    UsedMonotone(lay, n + 1, lay.Pages());
  }

  /** Every allocator frame lies apart from the GDT and from the PML4. */
  lemma FrameApart(lay: TableLayout, k: int)
    requires lay.Ok() && 0 <= k < lay.frameCount
    ensures lay.FrameWord(k) + TABLE_ENTRIES <= lay.Pml4Word() || lay.Pml4Word() + TABLE_ENTRIES <= lay.FrameWord(k)
    ensures lay.FrameWord(k) + TABLE_ENTRIES <= lay.GdtWord() || lay.GdtWord() + BOOT_GDT_MAX <= lay.FrameWord(k)
    ensures lay.FrameWord(0) <= lay.FrameWord(k)
  {
    var t := lay.tablesOffset / PAGE_SIZE;
    assert lay.tablesOffset == t * PAGE_SIZE;
    assert lay.FrameWord(k) == (t + k) * TABLE_ENTRIES;
  }

  /** An entry of a table in use is 0 exactly when its target is not in use yet. */
  lemma WantZero(lay: TableLayout, n: nat, r: int, g: int, i: int)
    ensures 0 <= i < 511 ==> (lay.Pml4Want(n, i) == 0 <==> !lay.InR(n, i))
    ensures lay.InR(n, r) ==> (lay.PdptWant(n, r, i) == 0 <==> !lay.InG(n, r * PAGES_PER_PD + i))
    ensures lay.InG(n, g) ==> (lay.PdWant(n, g, i) == 0 <==> !lay.InP(n, g * PAGES_PER_PD + i))
  {
    if lay.InR(n, i) {
      PdptFrameBound(lay, n, i);
    }
    if lay.InG(n, r * PAGES_PER_PD + i) {
      PdFrameBound(lay, n, r * PAGES_PER_PD + i);
    }
  }

  /** The allocator frames lie apart from the PML4 and from the GDT, and above the first one. */
  lemma FramesApart(lay: TableLayout)
    requires lay.Ok()
    ensures lay.FrameWord(lay.frameCount) <= lay.Pml4Word() || lay.Pml4Word() + TABLE_ENTRIES <= lay.FrameWord(0)
    ensures lay.FrameWord(lay.frameCount) <= lay.GdtWord() || lay.GdtWord() + BOOT_GDT_MAX <= lay.FrameWord(0)
    ensures lay.FrameWord(0) >= 0
  {
    var t := lay.tablesOffset / PAGE_SIZE;
    assert lay.tablesOffset == t * PAGE_SIZE;
    assert lay.FrameWord(0) == t * TABLE_ENTRIES;
  }

  /** What step `n` needs of the layout: a PML4 slot below the recursive one and enough frames. */
  lemma StepFacts(lay: TableLayout, n: nat)
    requires lay.Ok() && n < lay.Pages()
    ensures lay.StepR(n) < 256
    ensures lay.StepR(n) * PAGES_PER_PD + lay.StepG(n) % PAGES_PER_PD == lay.StepG(n)
    ensures lay.StepG(n) * PAGES_PER_PD + lay.StepPage(n) % PAGES_PER_PD == lay.StepPage(n)
    ensures lay.Used(n) <= lay.Used(n + 1) <= lay.frameCount
  {
    UsedMonotone(lay, n, n + 1);
    PageBelowEnd(lay, n);
    IndicesOfPage(lay.StepPage(n));
    PageRegions(lay.StepPage(n));
  }

  /**
   * `create_next_table` on the entry at word `w`, turning `m0` into `m1`:
   * an unused (zero) entry is set to the new table at `frame`, whose words
   * from `fw` on are zeroed, and the walk goes on there; a used entry is
   * followed to the table it holds.
   */
  predicate TableStep(m0: seq<u64>, m1: seq<u64>, w: nat, frame: nat, fw: nat, next: nat) {
    w < |m0|
    && (m0[w] == 0 ==>
          FrameAddress(frame) && fw + TABLE_ENTRIES <= |m0| && next == frame
          && m1 == Zeroed(m0[w := MakeEntry(frame, TABLE_FLAGS)], fw))
    && (m0[w] != 0 ==> m1 == m0 && next == EntryAddr(m0[w]))
  }

  /** Word `x` after a table step whose entry lies outside the new table. */
  lemma TableStepWord(m0: seq<u64>, m1: seq<u64>, w: nat, frame: nat, fw: nat, next: nat, x: nat)
    requires TableStep(m0, m1, w, frame, fw, next) && x < |m0|
    requires m0[w] == 0 ==> !(fw <= w < fw + TABLE_ENTRIES)
    ensures |m1| == |m0|
    ensures m1[x] == (if m0[w] != 0 then m0[x]
                      else if x == w then MakeEntry(frame, TABLE_FLAGS)
                      else if fw <= x < fw + TABLE_ENTRIES then 0
                      else m0[x])
  {
  }

  /** The PML4 entries after step `n`: the page's PDPT is entered when new; the rest stay. */
  lemma Pml4WantStep(lay: TableLayout, n: nat, i: int)
    requires lay.StepR(n) < 511
    ensures lay.Pml4Want(n + 1, i)
            == if i == lay.StepR(n) && !lay.InR(n, i) then lay.FrameAddr(lay.Used(n)) + TABLE_FLAGS
               else lay.Pml4Want(n, i)
  {
    StepRegions(lay, n);
    StepKeepsOthers(lay, n, i, 0, 0);
  }

  /** The PML4 after the PML4 step of step `n`, from the facts about the layout that it needs. */
  lemma Pml4After(lay: TableLayout, m0: seq<u64>, m1: seq<u64>, n: nat, frame: nat, fw: nat, next: nat)
    requires lay.StepR(n) < 511
    requires Pml4Ok(lay, m0, n)
    requires TableStep(m0, m1, lay.Pml4Word() + lay.StepR(n), frame, fw, next)
    requires m0[lay.Pml4Word() + lay.StepR(n)] == 0 <==> !lay.InR(n, lay.StepR(n))
    requires m0[lay.Pml4Word() + lay.StepR(n)] == 0 ==>
               frame == lay.FrameAddr(lay.Used(n)) && (fw + TABLE_ENTRIES <= lay.Pml4Word() || lay.Pml4Word() + TABLE_ENTRIES <= fw)
    ensures Pml4Ok(lay, m1, n + 1)
  {
    var w := lay.Pml4Word() + lay.StepR(n);
    var n1 := n + 1;
    forall i | 0 <= i < TABLE_ENTRIES
      ensures Pml4EntryOk(lay, m1, i, n1)
    {
      Pml4WantStep(lay, n, i);
      assert Pml4EntryOk(lay, m0, i, n);
      TableStepWord(m0, m1, w, frame, fw, next, lay.Pml4Word() + i);
    }
    assert Pml4Ok(lay, m1, n1);
  }

  /** The entry of a table in frame `k`: nonzero, and it leads back to the frame. */
  lemma TableEntryOf(lay: TableLayout, k: int)
    requires lay.Ok() && 0 <= k < lay.frameCount
    ensures FrameAddress(lay.FrameAddr(k))
    ensures MakeEntry(lay.FrameAddr(k), TABLE_FLAGS) == lay.FrameAddr(k) + TABLE_FLAGS
    ensures EntryAddr(MakeEntry(lay.FrameAddr(k), TABLE_FLAGS)) == lay.FrameAddr(k)
    ensures var e := MakeEntry(lay.FrameAddr(k), TABLE_FLAGS); Present(e) && Writable(e) && !Huge(e)
  {
    FrameIsAddress(lay, k);
    MakeEntryAddr(lay.FrameAddr(k), TABLE_FLAGS);
    MakeEntryFlags(lay.FrameAddr(k), TABLE_FLAGS);
    BootFlagBits();
  }

  /**
   * The PML4 entry of step `n`, before the step: unused exactly when the
   * page's PDPT is new, and then the next allocator frame is free for it;
   * otherwise a present, writable table entry holding that PDPT.
   */
  lemma Level4Entry(lay: TableLayout, m0: seq<u64>, n: nat)
    requires lay.Ok() && n < lay.Pages()
    requires Pml4Ok(lay, m0, n)
    ensures var w := lay.Pml4Word() + lay.StepR(n);
            w < |m0|
            && (m0[w] == 0 <==> !lay.InR(n, lay.StepR(n)))
            && (m0[w] != 0 ==> Present(m0[w]) && Writable(m0[w]) && !Huge(m0[w])
                               && EntryAddr(m0[w]) == lay.FrameAddr(lay.PdptFrame(lay.StepR(n))))
            && (m0[w] == 0 ==> lay.PdptFrame(lay.StepR(n)) == lay.Used(n) && lay.Used(n) < lay.frameCount
                               && FrameAddress(lay.FrameAddr(lay.Used(n))))
  {
    var r := lay.StepR(n);
    var w := lay.Pml4Word() + r;
    StepFacts(lay, n);
    WantZero(lay, n, r, 0, r);
    assert Pml4EntryOk(lay, m0, r, n);
    if lay.InR(n, r) {
      PdptFrameBound(lay, n, r);
      UsedMonotone(lay, n, lay.Pages());
      TableEntryOf(lay, lay.PdptFrame(r));
      assert m0[w] == MakeEntry(lay.FrameAddr(lay.PdptFrame(r)), TABLE_FLAGS);
    } else {
      StepRegions(lay, n);
      assert lay.PdptFrame(r) == lay.Used(n);
      assert m0[w] == 0;
      FrameIsAddress(lay, lay.Used(n));
    }
  }

  /** After the PML4 step of step `n` the walk goes on at the page's PDPT. */
  lemma Level4Next(lay: TableLayout, m0: seq<u64>, m1: seq<u64>, n: nat, next: nat)
    requires lay.Ok() && n < lay.Pages()
    requires Pml4Ok(lay, m0, n)
    requires TableStep(m0, m1, lay.Pml4Word() + lay.StepR(n), lay.FrameAddr(lay.Used(n)), lay.FrameWord(lay.Used(n)), next)
    ensures m0[lay.Pml4Word() + lay.StepR(n)] == 0 <==> !lay.InR(n, lay.StepR(n))
    ensures next == lay.FrameAddr(lay.PdptFrame(lay.StepR(n)))
  {
    Level4Entry(lay, m0, n);
  }

  /** The PML4 step of step `n`: the page's PDPT entry is added, and the walk goes on at that PDPT. */
  lemma Level4(lay: TableLayout, m0: seq<u64>, m1: seq<u64>, n: nat, next: nat)
    requires lay.Ok() && n < lay.Pages()
    requires Pml4Ok(lay, m0, n)
    requires TableStep(m0, m1, lay.Pml4Word() + lay.StepR(n), lay.FrameAddr(lay.Used(n)), lay.FrameWord(lay.Used(n)), next)
    ensures Pml4Ok(lay, m1, n + 1)
    ensures Level4Facts(lay, m0, m1, n, lay.FrameAddr(lay.Used(n)), lay.FrameWord(lay.Used(n)), next)
    ensures next == lay.FrameAddr(lay.PdptFrame(lay.StepR(n)))
  {
    Level4Next(lay, m0, m1, n, next);
    StepFacts(lay, n);
    FramesApart(lay);
    StepRegions(lay, n);
    var w := lay.Pml4Word() + lay.StepR(n);
    assert m0[w] == 0 ==> lay.Used(n) < lay.frameCount;
    UsedMonotone(lay, n, n + 1);
    Pml4After(lay, m0, m1, n, lay.FrameAddr(lay.Used(n)), lay.FrameWord(lay.Used(n)), next);
  }

  /** Two different frames have disjoint words. */
  lemma FramesDisjoint(lay: TableLayout, k1: int, k2: int)
    requires k1 != k2
    ensures lay.FrameWord(k1) + TABLE_ENTRIES <= lay.FrameWord(k2) || lay.FrameWord(k2) + TABLE_ENTRIES <= lay.FrameWord(k1)
  {
  }

  /** The facts about a PML4 step that the PDPTs and PDs after it depend on. */
  predicate Level4Facts(lay: TableLayout, m0: seq<u64>, m1: seq<u64>, n: nat, frame: nat, fw: nat, next: nat) {
    lay.StepR(n) < 511 && lay.Used(n) <= lay.frameCount
    && (lay.FrameWord(lay.frameCount) <= lay.Pml4Word() || lay.Pml4Word() + TABLE_ENTRIES <= lay.FrameWord(0))
    && TableStep(m0, m1, lay.Pml4Word() + lay.StepR(n), frame, fw, next)
    && (m0[lay.Pml4Word() + lay.StepR(n)] == 0 <==> !lay.InR(n, lay.StepR(n)))
    && (m0[lay.Pml4Word() + lay.StepR(n)] == 0 ==> fw == lay.FrameWord(lay.Used(n)) && lay.Used(n) < lay.frameCount)
  }

  /** Entry `i` of a PDPT that the PML4 step creates: empty, as no PD of its region is in use yet. */
  lemma PdptAfterLevel4New(lay: TableLayout, m0: seq<u64>, m1: seq<u64>, n: nat, frame: nat, fw: nat, next: nat, i: int)
    requires Level4Facts(lay, m0, m1, n, frame, fw, next)
    requires !lay.InR(n, lay.StepR(n)) && 0 <= i < TABLE_ENTRIES
    ensures PdptEntryOk(lay, m1, lay.StepR(n), i, n)
  {
    var r := lay.StepR(n);
    var w := lay.Pml4Word() + r;
    assert lay.FrameWord(lay.Used(n) + 1) <= lay.FrameWord(lay.frameCount);
    StepRegions(lay, n);
    NewTableEmpty(lay, n, r, 0, i);
    TableStepWord(m0, m1, w, frame, fw, next, fw + i);
  }

  /** Entry `i` of a PDPT in use before the PML4 step: untouched, as its frame is another one. */
  lemma PdptAfterLevel4Old(lay: TableLayout, m0: seq<u64>, m1: seq<u64>, n: nat, frame: nat, fw: nat, next: nat, r1: int, i: int)
    requires Level4Facts(lay, m0, m1, n, frame, fw, next)
    requires PdptOk(lay, m0, n, n)
    requires lay.InR(n, r1) && 0 <= i < TABLE_ENTRIES
    ensures PdptEntryOk(lay, m1, r1, i, n)
  {
    var w := lay.Pml4Word() + lay.StepR(n);
    assert m0[w] == 0 ==> lay.FrameWord(lay.Used(n) + 1) <= lay.FrameWord(lay.frameCount);
    PdptFrameBound(lay, n, r1);
    var x := lay.FrameWord(lay.PdptFrame(r1)) + i;
    assert PdptEntryOk(lay, m0, r1, i, n);
    assert lay.FrameWord(0) <= x < lay.FrameWord(lay.frameCount);
    if m0[w] == 0 {
      FramesDisjoint(lay, lay.PdptFrame(r1), lay.Used(n));
    }
    TableStepWord(m0, m1, w, frame, fw, next, x);
  }

  /** The PDPTs after the PML4 step: a new PDPT is empty, the others are untouched. */
  lemma PdptAfterLevel4(lay: TableLayout, m0: seq<u64>, m1: seq<u64>, n: nat, frame: nat, fw: nat, next: nat)
    requires Level4Facts(lay, m0, m1, n, frame, fw, next)
    requires PdptOk(lay, m0, n, n)
    ensures PdptOk(lay, m1, n + 1, n)
  {
    var n1 := n + 1;
    forall r1: int, i: int | lay.InR(n1, r1) && 0 <= i < TABLE_ENTRIES
      ensures PdptEntryOk(lay, m1, r1, i, n)
    {
      StepKeepsOthers(lay, n, r1, 0, 0);
      if lay.InR(n, r1) {
        PdptAfterLevel4Old(lay, m0, m1, n, frame, fw, next, r1, i);
      } else {
        PdptAfterLevel4New(lay, m0, m1, n, frame, fw, next, i);
      }
    }
    assert PdptOk(lay, m1, n1, n);
  }

  /** Entry `i` of a PD in use before the PML4 step: untouched. */
  lemma PdAfterLevel4Entry(lay: TableLayout, m0: seq<u64>, m1: seq<u64>, n: nat, frame: nat, fw: nat, next: nat, g1: int, i: int)
    requires Level4Facts(lay, m0, m1, n, frame, fw, next)
    requires PdOk(lay, m0, n, n)
    requires lay.InG(n, g1) && 0 <= i < TABLE_ENTRIES
    ensures PdEntryOk(lay, m1, g1, i, n)
  {
    var w := lay.Pml4Word() + lay.StepR(n);
    assert m0[w] == 0 ==> lay.FrameWord(lay.Used(n) + 1) <= lay.FrameWord(lay.frameCount);
    PdFrameBound(lay, n, g1);
    var x := lay.FrameWord(lay.PdFrame(g1)) + i;
    assert PdEntryOk(lay, m0, g1, i, n);
    assert lay.FrameWord(0) <= x < lay.FrameWord(lay.frameCount);
    if m0[w] == 0 {
      FramesDisjoint(lay, lay.PdFrame(g1), lay.Used(n));
    }
    TableStepWord(m0, m1, w, frame, fw, next, x);
  }

  /** The PDs after the PML4 step are untouched. */
  lemma PdAfterLevel4(lay: TableLayout, m0: seq<u64>, m1: seq<u64>, n: nat, frame: nat, fw: nat, next: nat)
    requires Level4Facts(lay, m0, m1, n, frame, fw, next)
    requires PdOk(lay, m0, n, n)
    ensures PdOk(lay, m1, n, n)
  {
    forall g1: int, i: int | lay.InG(n, g1) && 0 <= i < TABLE_ENTRIES
      ensures PdEntryOk(lay, m1, g1, i, n)
    {
      PdAfterLevel4Entry(lay, m0, m1, n, frame, fw, next, g1, i);
    }
  }

  // ----- the PDPT step -----

  /** The word of the PDPT entry that step `n` follows or sets. */
  function Level3Word(lay: TableLayout, n: nat): int {
    lay.FrameWord(lay.PdptFrame(lay.StepR(n))) + lay.StepG(n) % PAGES_PER_PD
  }

  /** The facts about a PDPT step that the tables after it depend on. */
  predicate Level3Facts(lay: TableLayout, m1: seq<u64>, m2: seq<u64>, n: nat, frame: nat, fw: nat, next: nat) {
    lay.StepR(n) < 511
    && lay.StepR(n) * PAGES_PER_PD + lay.StepG(n) % PAGES_PER_PD == lay.StepG(n)
    && lay.UsedWithPdpt(n) <= lay.frameCount
    && (lay.FrameWord(lay.frameCount) <= lay.Pml4Word() || lay.Pml4Word() + TABLE_ENTRIES <= lay.FrameWord(0))
    && 0 <= lay.PdptFrame(lay.StepR(n)) < lay.UsedWithPdpt(n)
    && lay.InR(n + 1, lay.StepR(n))
    && 0 <= Level3Word(lay, n)
    && TableStep(m1, m2, Level3Word(lay, n), frame, fw, next)
    && (m1[Level3Word(lay, n)] == 0 <==> !lay.InG(n, lay.StepG(n)))
    && (m1[Level3Word(lay, n)] == 0 ==>
          frame == lay.FrameAddr(lay.UsedWithPdpt(n)) && fw == lay.FrameWord(lay.UsedWithPdpt(n))
          && lay.UsedWithPdpt(n) < lay.frameCount && lay.PdFrame(lay.StepG(n)) == lay.UsedWithPdpt(n))
  }

  /** The PDPT entry that step `n` follows, before the step: the page's PD if it is in use, else 0. */
  lemma PdptWantAtStep(lay: TableLayout, n: nat)
    requires lay.StepR(n) * PAGES_PER_PD + lay.StepG(n) % PAGES_PER_PD == lay.StepG(n)
    ensures lay.PdptWant(n, lay.StepR(n), lay.StepG(n) % PAGES_PER_PD)
            == if lay.InG(n, lay.StepG(n)) then lay.FrameAddr(lay.PdFrame(lay.StepG(n))) + TABLE_FLAGS else 0
  {
  }

  /**
   * The PDPT entry of step `n`, after the PML4 step: unused exactly when the
   * page's PD is new, and then the next allocator frame is free for it;
   * otherwise a present, writable table entry holding that PD.
   */
  lemma Level3Entry(lay: TableLayout, m1: seq<u64>, n: nat)
    requires lay.Ok() && n < lay.Pages()
    requires PdptOk(lay, m1, n + 1, n)
    ensures var w := Level3Word(lay, n);
            0 <= w < |m1|
            && (m1[w] == 0 <==> !lay.InG(n, lay.StepG(n)))
            && (m1[w] != 0 ==> Present(m1[w]) && Writable(m1[w]) && !Huge(m1[w])
                               && EntryAddr(m1[w]) == lay.FrameAddr(lay.PdFrame(lay.StepG(n))))
            && (m1[w] == 0 ==> lay.PdFrame(lay.StepG(n)) == lay.UsedWithPdpt(n) && lay.UsedWithPdpt(n) < lay.frameCount
                               && FrameAddress(lay.FrameAddr(lay.UsedWithPdpt(n))))
  {
    var r, g := lay.StepR(n), lay.StepG(n);
    var gi := g % PAGES_PER_PD;
    var w := Level3Word(lay, n);
    StepFacts(lay, n);
    StepRegions(lay, n);
    assert PdptEntryOk(lay, m1, r, gi, n);
    PdptWantAtStep(lay, n);
    if lay.InG(n, g) {
      PdFrameBound(lay, n, g);
      UsedMonotone(lay, n, lay.Pages());
      TableEntryOf(lay, lay.PdFrame(g));
      assert m1[w] == MakeEntry(lay.FrameAddr(lay.PdFrame(g)), TABLE_FLAGS);
    } else {
      assert m1[w] == 0;
      FrameIsAddress(lay, lay.UsedWithPdpt(n));
    }
  }

  /** After the PDPT step of step `n` the walk goes on at the page's PD. */
  lemma Level3Next(lay: TableLayout, m1: seq<u64>, m2: seq<u64>, n: nat, next: nat)
    requires lay.Ok() && n < lay.Pages()
    requires PdptOk(lay, m1, n + 1, n)
    requires 0 <= Level3Word(lay, n)
    requires TableStep(m1, m2, Level3Word(lay, n), lay.FrameAddr(lay.UsedWithPdpt(n)), lay.FrameWord(lay.UsedWithPdpt(n)), next)
    ensures Level3Facts(lay, m1, m2, n, lay.FrameAddr(lay.UsedWithPdpt(n)), lay.FrameWord(lay.UsedWithPdpt(n)), next)
    ensures next == lay.FrameAddr(lay.PdFrame(lay.StepG(n)))
  {
    var r := lay.StepR(n);
    StepFacts(lay, n);
    FramesApart(lay);
    StepRegions(lay, n);
    UsedMonotone(lay, n, n + 1);
    if lay.InR(n, r) {
      PdptFrameBound(lay, n, r);
    }
    Level3Entry(lay, m1, n);
  }

  /** The PML4 is untouched by the PDPT step. */
  lemma Pml4AfterLevel3(lay: TableLayout, m1: seq<u64>, m2: seq<u64>, n: nat, frame: nat, fw: nat, next: nat)
    requires Level3Facts(lay, m1, m2, n, frame, fw, next)
    requires Pml4Ok(lay, m1, n + 1)
    ensures Pml4Ok(lay, m2, n + 1)
  {
    var w := Level3Word(lay, n);
    var k := lay.PdptFrame(lay.StepR(n));
    assert lay.FrameWord(0) <= lay.FrameWord(k) && lay.FrameWord(k + 1) <= lay.FrameWord(lay.frameCount);
    assert m1[w] == 0 ==> lay.FrameWord(lay.UsedWithPdpt(n) + 1) <= lay.FrameWord(lay.frameCount);
    var n1 := n + 1;
    forall i | 0 <= i < TABLE_ENTRIES
      ensures Pml4EntryOk(lay, m2, i, n1)
    {
      assert Pml4EntryOk(lay, m1, i, n1);
      TableStepWord(m1, m2, w, frame, fw, next, lay.Pml4Word() + i);
    }
    assert Pml4Ok(lay, m2, n1);
  }

  /** The PDPT entries after step `n`: the page's PD is entered when new; the rest stay. */
  lemma PdptWantStep(lay: TableLayout, n: nat, r1: int, i: int)
    ensures lay.PdptWant(n + 1, r1, i)
            == if r1 * PAGES_PER_PD + i == lay.StepG(n) && !lay.InG(n, lay.StepG(n))
               then lay.FrameAddr(lay.PdFrame(lay.StepG(n))) + TABLE_FLAGS
               else lay.PdptWant(n, r1, i)
  {
    StepRegions(lay, n);
    StepKeepsOthers(lay, n, 0, r1 * PAGES_PER_PD + i, 0);
  }

  /** Entry `i` of PDPT `r1` after the PDPT step. */
  lemma PdptAfterLevel3Entry(lay: TableLayout, m1: seq<u64>, m2: seq<u64>, n: nat, frame: nat, fw: nat, next: nat, r1: int, i: int)
    requires Level3Facts(lay, m1, m2, n, frame, fw, next)
    requires PdptOk(lay, m1, n + 1, n)
    requires lay.InR(n + 1, r1) && 0 <= i < TABLE_ENTRIES
    ensures PdptEntryOk(lay, m2, r1, i, n + 1)
  {
    var r := lay.StepR(n);
    var w := Level3Word(lay, n);
    var k := lay.PdptFrame(r1);
    var x := lay.FrameWord(k) + i;
    PdptWantStep(lay, n, r1, i);
    assert PdptEntryOk(lay, m1, r1, i, n);
    if r1 < r {
      PdptFramesDistinct(lay, r1, r);
      FramesDisjoint(lay, k, lay.PdptFrame(r));
    } else if r < r1 {
      PdptFramesDistinct(lay, r, r1);
      FramesDisjoint(lay, k, lay.PdptFrame(r));
    }
    if m1[w] == 0 {
      PdptPdFramesDistinct(lay, r1, lay.StepG(n));
      FramesDisjoint(lay, k, lay.UsedWithPdpt(n));
      FramesDisjoint(lay, lay.PdptFrame(r), lay.UsedWithPdpt(n));
    }
    TableStepWord(m1, m2, w, frame, fw, next, x);
  }

  /** The PDPTs after the PDPT step hold the entries for `n + 1` pages. */
  lemma PdptAfterLevel3(lay: TableLayout, m1: seq<u64>, m2: seq<u64>, n: nat, frame: nat, fw: nat, next: nat)
    requires Level3Facts(lay, m1, m2, n, frame, fw, next)
    requires PdptOk(lay, m1, n + 1, n)
    ensures PdptOk(lay, m2, n + 1, n + 1)
  {
    var n1 := n + 1;
    forall r1: int, i: int | lay.InR(n1, r1) && 0 <= i < TABLE_ENTRIES
      ensures PdptEntryOk(lay, m2, r1, i, n1)
    {
      PdptAfterLevel3Entry(lay, m1, m2, n, frame, fw, next, r1, i);
    }
  }

  /** Entry `i` of the PD that the PDPT step creates: empty, as no page of its region is mapped yet. */
  lemma PdAfterLevel3New(lay: TableLayout, m1: seq<u64>, m2: seq<u64>, n: nat, frame: nat, fw: nat, next: nat, i: int)
    requires Level3Facts(lay, m1, m2, n, frame, fw, next)
    requires !lay.InG(n, lay.StepG(n)) && 0 <= i < TABLE_ENTRIES
    ensures PdEntryOk(lay, m2, lay.StepG(n), i, n)
  {
    var w := Level3Word(lay, n);
    FramesDisjoint(lay, lay.PdptFrame(lay.StepR(n)), lay.UsedWithPdpt(n));
    NewTableEmpty(lay, n, 0, lay.StepG(n), i);
    TableStepWord(m1, m2, w, frame, fw, next, fw + i);
  }

  /** Entry `i` of a PD in use before the PDPT step: untouched. */
  lemma PdAfterLevel3Old(lay: TableLayout, m1: seq<u64>, m2: seq<u64>, n: nat, frame: nat, fw: nat, next: nat, g1: int, i: int)
    requires Level3Facts(lay, m1, m2, n, frame, fw, next)
    requires PdOk(lay, m1, n, n)
    requires lay.InG(n, g1) && 0 <= i < TABLE_ENTRIES
    ensures PdEntryOk(lay, m2, g1, i, n)
  {
    var w := Level3Word(lay, n);
    var k := lay.PdFrame(g1);
    PdFrameBound(lay, n, g1);
    assert PdEntryOk(lay, m1, g1, i, n);
    PdptPdFramesDistinct(lay, lay.StepR(n), g1);
    FramesDisjoint(lay, k, lay.PdptFrame(lay.StepR(n)));
    if m1[w] == 0 {
      FramesDisjoint(lay, k, lay.UsedWithPdpt(n));
    }
    TableStepWord(m1, m2, w, frame, fw, next, lay.FrameWord(k) + i);
  }

  /** The PDs after the PDPT step: the page's PD is in use, and a new one is empty. */
  lemma PdAfterLevel3(lay: TableLayout, m1: seq<u64>, m2: seq<u64>, n: nat, frame: nat, fw: nat, next: nat)
    requires Level3Facts(lay, m1, m2, n, frame, fw, next)
    requires PdOk(lay, m1, n, n)
    ensures PdOk(lay, m2, n + 1, n)
  {
    var n1 := n + 1;
    forall g1: int, i: int | lay.InG(n1, g1) && 0 <= i < TABLE_ENTRIES
      ensures PdEntryOk(lay, m2, g1, i, n)
    {
      StepKeepsOthers(lay, n, 0, g1, 0);
      if lay.InG(n, g1) {
        PdAfterLevel3Old(lay, m1, m2, n, frame, fw, next, g1, i);
      } else {
        PdAfterLevel3New(lay, m1, m2, n, frame, fw, next, i);
      }
    }
  }

  // ----- the PD entry -----

  /** The word of the PD entry that step `n` sets. */
  function Level2Word(lay: TableLayout, n: nat): int {
    lay.FrameWord(lay.PdFrame(lay.StepG(n))) + lay.StepPage(n) % PAGES_PER_PD
  }

  /** The huge-page entry that identity-maps the page of step `n`. */
  function HugeEntry(lay: TableLayout, n: nat): int {
    lay.StepPage(n) * GUEST_PAGE_SIZE + HUGE_FLAGS
  }

  /** The facts about the PD write of step `n` that the tables after it depend on. */
  predicate Level2Facts(lay: TableLayout, m2: seq<u64>, m3: seq<u64>, n: nat) {
    lay.StepG(n) * PAGES_PER_PD + lay.StepPage(n) % PAGES_PER_PD == lay.StepPage(n)
    && lay.InG(n + 1, lay.StepG(n))
    && 0 <= lay.PdFrame(lay.StepG(n)) < lay.frameCount
    && (lay.FrameWord(lay.frameCount) <= lay.Pml4Word() || lay.Pml4Word() + TABLE_ENTRIES <= lay.FrameWord(0))
    && 0 <= Level2Word(lay, n) < |m2| == |m3|
    && m3[Level2Word(lay, n)] as int == HugeEntry(lay, n)
    && (forall x :: 0 <= x < |m2| && x != Level2Word(lay, n) ==> m3[x] == m2[x])
  }

  /** The PD entries after step `n`: the page's entry is added; the rest stay. */
  lemma PdWantStep(lay: TableLayout, n: nat, g1: int, i: int)
    ensures lay.PdWant(n + 1, g1, i)
            == if g1 * PAGES_PER_PD + i == lay.StepPage(n) then HugeEntry(lay, n) else lay.PdWant(n, g1, i)
  {
    StepRegions(lay, n);
    StepKeepsOthers(lay, n, 0, 0, g1 * PAGES_PER_PD + i);
  }

  /** The PD entry of step `n` is still unused before the write: the page is not mapped twice. */
  lemma Level2Unused(lay: TableLayout, m2: seq<u64>, n: nat)
    requires lay.Ok() && n < lay.Pages()
    requires PdOk(lay, m2, n + 1, n)
    ensures 0 <= Level2Word(lay, n) < |m2| && m2[Level2Word(lay, n)] == 0
    ensures FrameAddress(lay.StepPage(n) * GUEST_PAGE_SIZE)
    ensures MakeEntry(lay.StepPage(n) * GUEST_PAGE_SIZE, HUGE_FLAGS) as int == HugeEntry(lay, n)
  {
    var g := lay.StepG(n);
    var q := lay.StepPage(n) % PAGES_PER_PD;
    StepFacts(lay, n);
    StepRegions(lay, n);
    PageBelowEnd(lay, n);
    assert PdEntryOk(lay, m2, g, q, n);
    assert lay.PdWant(n, g, q) == 0;
  }

  /** The PML4 is untouched by the PD write. */
  lemma Pml4AfterLevel2(lay: TableLayout, m2: seq<u64>, m3: seq<u64>, n: nat)
    requires Level2Facts(lay, m2, m3, n)
    requires Pml4Ok(lay, m2, n + 1)
    ensures Pml4Ok(lay, m3, n + 1)
  {
    var k := lay.PdFrame(lay.StepG(n));
    assert lay.FrameWord(0) <= lay.FrameWord(k) && lay.FrameWord(k + 1) <= lay.FrameWord(lay.frameCount);
    var n1 := n + 1;
    forall i | 0 <= i < TABLE_ENTRIES
      ensures Pml4EntryOk(lay, m3, i, n1)
    {
      assert Pml4EntryOk(lay, m2, i, n1);
    }
  }

  /** The PDPTs are untouched by the PD write, as PD and PDPT frames differ. */
  lemma PdptAfterLevel2(lay: TableLayout, m2: seq<u64>, m3: seq<u64>, n: nat)
    requires Level2Facts(lay, m2, m3, n)
    requires PdptOk(lay, m2, n + 1, n + 1)
    ensures PdptOk(lay, m3, n + 1, n + 1)
  {
    var n1 := n + 1;
    forall r1: int, i: int | lay.InR(n1, r1) && 0 <= i < TABLE_ENTRIES
      ensures PdptEntryOk(lay, m3, r1, i, n1)
    {
      assert PdptEntryOk(lay, m2, r1, i, n1);
      PdptPdFramesDistinct(lay, r1, lay.StepG(n));
      FramesDisjoint(lay, lay.PdptFrame(r1), lay.PdFrame(lay.StepG(n)));
    }
  }

  /** Entry `i` of PD `g1` after the PD write. */
  lemma PdAfterLevel2Entry(lay: TableLayout, m2: seq<u64>, m3: seq<u64>, n: nat, g1: int, i: int)
    requires Level2Facts(lay, m2, m3, n)
    requires PdOk(lay, m2, n + 1, n)
    requires lay.InG(n + 1, g1) && 0 <= i < TABLE_ENTRIES
    ensures PdEntryOk(lay, m3, g1, i, n + 1)
  {
    var g := lay.StepG(n);
    assert PdEntryOk(lay, m2, g1, i, n);
    PdWantStep(lay, n, g1, i);
    if g1 != g {
      PdFramesDistinctEither(lay, g1, g);
      FramesDisjoint(lay, lay.PdFrame(g1), lay.PdFrame(g));
    }
  }

  /** Different PDs in use have different frames. */
  lemma PdFramesDistinctEither(lay: TableLayout, g1: int, g2: int)
    requires lay.G0() <= g1 && lay.G0() <= g2 && g1 != g2
    ensures lay.PdFrame(g1) != lay.PdFrame(g2)
  {
    if g1 < g2 {
      PdFramesDistinct(lay, g1, g2);
    } else {
      PdFramesDistinct(lay, g2, g1);
    }
  }

  /** The PDs after the PD write hold the entries for `n + 1` pages. */
  lemma PdAfterLevel2(lay: TableLayout, m2: seq<u64>, m3: seq<u64>, n: nat)
    requires Level2Facts(lay, m2, m3, n)
    requires PdOk(lay, m2, n + 1, n)
    ensures PdOk(lay, m3, n + 1, n + 1)
  {
    var n1 := n + 1;
    forall g1: int, i: int | lay.InG(n1, g1) && 0 <= i < TABLE_ENTRIES
      ensures PdEntryOk(lay, m3, g1, i, n1)
    {
      PdAfterLevel2Entry(lay, m2, m3, n, g1, i);
    }
  }

  // ----- one step of the loop -----

  /** Word `w` is a PML4 word or a word of the first `used` allocator frames. */
  predicate InTables(lay: TableLayout, w: int, used: nat) {
    (lay.Pml4Word() <= w < lay.Pml4Word() + TABLE_ENTRIES) || (lay.FrameWord(0) <= w < lay.FrameWord(used))
  }

  /** Handing out more frames only widens what may have changed. */
  lemma OnlyTablesChangedMore(lay: TableLayout, m0: seq<u64>, m: seq<u64>, u1: nat, u2: nat)
    requires OnlyTablesChanged(lay, m0, m, u1) && u1 <= u2
    ensures OnlyTablesChanged(lay, m0, m, u2)
  {
  }

  /** A table step whose entry and new table lie among the tables changes nothing else. */
  lemma TableStepKeeps(lay: TableLayout, mS: seq<u64>, m0: seq<u64>, m1: seq<u64>, w: nat, frame: nat, fw: nat, next: nat, used: nat)
    requires OnlyTablesChanged(lay, mS, m0, used)
    requires TableStep(m0, m1, w, frame, fw, next)
    requires InTables(lay, w, used)
    requires m0[w] == 0 ==> lay.FrameWord(0) <= fw && fw + TABLE_ENTRIES <= lay.FrameWord(used)
    ensures OnlyTablesChanged(lay, mS, m1, used)
  {
    if m0[w] == 0 {
      var m := m0[w := MakeEntry(frame, TABLE_FLAGS)];
      forall x | 0 <= x < |m1| && !InTables(lay, x, used)
        ensures m1[x] == mS[x]
      {
        assert m1[x] == m[x];
      }
    }
  }

  /**
   * What the PML4 step of step `n` needs: its entry is the PML4 slot of the
   * page; an unused entry has a free frame in memory, a used one is a
   * table entry. A new PDPT takes one frame.
   */
  lemma Level4Pre(lay: TableLayout, m0: seq<u64>, n: nat, addr: nat, len: nat, k: nat)
    requires lay.Ok() && n < lay.Pages() && addr == lay.StepPage(n) * GUEST_PAGE_SIZE
    requires Pml4Ok(lay, m0, n) && lay.FrameWord(lay.frameCount) <= len && k == lay.Used(n)
    ensures var w := lay.Pml4Word() + P4Index(addr);
            w == lay.Pml4Word() + lay.StepR(n) && w < |m0|
            && (m0[w] == 0 ==>
                  k < lay.frameCount && FrameAddress(lay.FrameAddr(k)) && lay.FrameWord(k) + TABLE_ENTRIES <= len)
            && (m0[w] != 0 ==> Present(m0[w]) && Writable(m0[w]) && !Huge(m0[w]))
            && k + (if m0[w] == 0 then 1 else 0) == lay.UsedWithPdpt(n)
  {
    PageBelowEnd(lay, n);
    IndicesOfPage(lay.StepPage(n));
    Level4Entry(lay, m0, n);
  }

  /** The PML4 step changes the PML4 and at most the one frame it hands out. */
  lemma Level4Keeps(lay: TableLayout, mS: seq<u64>, m0: seq<u64>, m1: seq<u64>, n: nat, frame: nat, next: nat)
    requires Level4Facts(lay, m0, m1, n, frame, lay.FrameWord(lay.Used(n)), next)
    requires OnlyTablesChanged(lay, mS, m0, lay.Used(n))
    ensures OnlyTablesChanged(lay, mS, m1, lay.UsedWithPdpt(n))
  {
    OnlyTablesChangedMore(lay, mS, m0, lay.Used(n), lay.UsedWithPdpt(n));
    TableStepKeeps(lay, mS, m0, m1, lay.Pml4Word() + lay.StepR(n), frame, lay.FrameWord(lay.Used(n)), next, lay.UsedWithPdpt(n));
  }

  /** The PDPT entry that the walk of step `n` reads is `Level3Word`. */
  lemma Level3Index(lay: TableLayout, n: nat)
    requires lay.Ok() && n < lay.Pages()
    ensures 0 <= Level3Word(lay, n)
    ensures lay.WordOf(lay.FrameAddr(lay.PdptFrame(lay.StepR(n)))) + P3Index(lay.StepPage(n) * GUEST_PAGE_SIZE) == Level3Word(lay, n)
  {
    var r := lay.StepR(n);
    StepRegions(lay, n);
    PdptFrameBound(lay, n + 1, r);
    WordOfFrame(lay, lay.PdptFrame(r));
    PageBelowEnd(lay, n);
    IndicesOfPage(lay.StepPage(n));
  }

  /**
   * The PML4 step of step `n`, with what it keeps: the PDPT of the page is
   * in the PML4, the PDPTs and PDs are as before, nothing outside the
   * tables changed, and the PDPT entry to follow is `Level3Word`.
   */
  lemma AfterLevel4(lay: TableLayout, mS: seq<u64>, m0: seq<u64>, m1: seq<u64>, n: nat, w: nat, k: nat, next: nat)
    requires lay.Ok() && n < lay.Pages()
    requires Mapped(lay, m0, n) && OnlyTablesChanged(lay, mS, m0, lay.Used(n))
    requires w == lay.Pml4Word() + lay.StepR(n) && k == lay.Used(n)
    requires TableStep(m0, m1, w, lay.FrameAddr(k), lay.FrameWord(k), next)
    ensures Pml4Ok(lay, m1, n + 1) && PdptOk(lay, m1, n + 1, n) && PdOk(lay, m1, n, n)
    ensures OnlyTablesChanged(lay, mS, m1, lay.UsedWithPdpt(n))
    ensures 0 <= Level3Word(lay, n) && lay.WordOf(next) + P3Index(lay.StepPage(n) * GUEST_PAGE_SIZE) == Level3Word(lay, n)
  {
    var frame, fw := lay.FrameAddr(lay.Used(n)), lay.FrameWord(lay.Used(n));
    Level4(lay, m0, m1, n, next);
    PdptAfterLevel4(lay, m0, m1, n, frame, fw, next);
    PdAfterLevel4(lay, m0, m1, n, frame, fw, next);
    Level4Keeps(lay, mS, m0, m1, n, frame, next);
    Level3Index(lay, n);
  }

  /**
   * What the PDPT step of step `n` needs: an unused entry has a free frame
   * in memory, a used one is a table entry. A new PD takes one frame.
   */
  lemma Level3Pre(lay: TableLayout, m1: seq<u64>, n: nat, len: nat, k: nat)
    requires lay.Ok() && n < lay.Pages()
    requires PdptOk(lay, m1, n + 1, n) && lay.FrameWord(lay.frameCount) <= len && k == lay.UsedWithPdpt(n)
    ensures var w := Level3Word(lay, n);
            0 <= w < |m1|
            && (m1[w] == 0 ==>
                  k < lay.frameCount && FrameAddress(lay.FrameAddr(k)) && lay.FrameWord(k) + TABLE_ENTRIES <= len)
            && (m1[w] != 0 ==> Present(m1[w]) && Writable(m1[w]) && !Huge(m1[w]))
            && k + (if m1[w] == 0 then 1 else 0) == lay.Used(n + 1)
  {
    StepRegions(lay, n);
    Level3Entry(lay, m1, n);
  }

  /** The PDPT step changes at most its entry and the one frame it hands out. */
  lemma Level3Keeps(lay: TableLayout, mS: seq<u64>, m1: seq<u64>, m2: seq<u64>, n: nat, frame: nat, next: nat)
    requires Level3Facts(lay, m1, m2, n, frame, lay.FrameWord(lay.UsedWithPdpt(n)), next)
    requires OnlyTablesChanged(lay, mS, m1, lay.UsedWithPdpt(n))
    ensures OnlyTablesChanged(lay, mS, m2, lay.Used(n + 1))
  {
    StepRegions(lay, n);
    OnlyTablesChangedMore(lay, mS, m1, lay.UsedWithPdpt(n), lay.Used(n + 1));
    TableStepKeeps(lay, mS, m1, m2, Level3Word(lay, n), frame, lay.FrameWord(lay.UsedWithPdpt(n)), next, lay.Used(n + 1));
  }

  /** The PD entry that step `n` writes is `Level2Word`. */
  lemma Level2Index(lay: TableLayout, n: nat)
    requires lay.Ok() && n < lay.Pages()
    ensures 0 <= Level2Word(lay, n)
    ensures lay.WordOf(lay.FrameAddr(lay.PdFrame(lay.StepG(n)))) + P2Index(lay.StepPage(n) * GUEST_PAGE_SIZE) == Level2Word(lay, n)
  {
    var g := lay.StepG(n);
    StepRegions(lay, n);
    PdFrameBound(lay, n + 1, g);
    WordOfFrame(lay, lay.PdFrame(g));
    PageBelowEnd(lay, n);
    IndicesOfPage(lay.StepPage(n));
  }

  /**
   * The PDPT step of step `n`, with what it keeps: the PD of the page is in
   * its PDPT, nothing outside the tables changed, and the PD entry to set
   * is `Level2Word`.
   */
  lemma AfterLevel3(lay: TableLayout, mS: seq<u64>, m1: seq<u64>, m2: seq<u64>, n: nat, w: nat, k: nat, next: nat)
    requires lay.Ok() && n < lay.Pages()
    requires Pml4Ok(lay, m1, n + 1) && PdptOk(lay, m1, n + 1, n) && PdOk(lay, m1, n, n)
    requires OnlyTablesChanged(lay, mS, m1, lay.UsedWithPdpt(n))
    requires w == Level3Word(lay, n) && k == lay.UsedWithPdpt(n)
    requires TableStep(m1, m2, w, lay.FrameAddr(k), lay.FrameWord(k), next)
    ensures Pml4Ok(lay, m2, n + 1) && PdptOk(lay, m2, n + 1, n + 1) && PdOk(lay, m2, n + 1, n)
    ensures OnlyTablesChanged(lay, mS, m2, lay.Used(n + 1))
    ensures 0 <= Level2Word(lay, n) && lay.WordOf(next) + P2Index(lay.StepPage(n) * GUEST_PAGE_SIZE) == Level2Word(lay, n)
  {
    var frame, fw := lay.FrameAddr(lay.UsedWithPdpt(n)), lay.FrameWord(lay.UsedWithPdpt(n));
    Level3Next(lay, m1, m2, n, next);
    Pml4AfterLevel3(lay, m1, m2, n, frame, fw, next);
    PdptAfterLevel3(lay, m1, m2, n, frame, fw, next);
    PdAfterLevel3(lay, m1, m2, n, frame, fw, next);
    Level3Keeps(lay, mS, m1, m2, n, frame, next);
    Level2Index(lay, n);
  }

  /** The PD write of step `n` sets the huge-page entry and nothing else. */
  lemma Level2Write(lay: TableLayout, m2: seq<u64>, m3: seq<u64>, n: nat)
    requires lay.Ok() && n < lay.Pages()
    requires 0 <= Level2Word(lay, n) < |m2| && FrameAddress(lay.StepPage(n) * GUEST_PAGE_SIZE)
    requires m3 == m2[Level2Word(lay, n) := MakeEntry(lay.StepPage(n) * GUEST_PAGE_SIZE, HUGE_FLAGS)]
    ensures Level2Facts(lay, m2, m3, n)
  {
    StepFacts(lay, n);
    StepRegions(lay, n);
    PdFrameBound(lay, n + 1, lay.StepG(n));
    FramesApart(lay);
  }

  /** The PD write of step `n`, with what it keeps: the first `n + 1` pages are mapped. */
  lemma AfterLevel2(lay: TableLayout, mS: seq<u64>, m2: seq<u64>, m3: seq<u64>, n: nat)
    requires lay.Ok() && n < lay.Pages()
    requires Pml4Ok(lay, m2, n + 1) && PdptOk(lay, m2, n + 1, n + 1) && PdOk(lay, m2, n + 1, n)
    requires OnlyTablesChanged(lay, mS, m2, lay.Used(n + 1))
    requires 0 <= Level2Word(lay, n) < |m2| && FrameAddress(lay.StepPage(n) * GUEST_PAGE_SIZE)
    requires m3 == m2[Level2Word(lay, n) := MakeEntry(lay.StepPage(n) * GUEST_PAGE_SIZE, HUGE_FLAGS)]
    ensures Mapped(lay, m3, n + 1) && OnlyTablesChanged(lay, mS, m3, lay.Used(n + 1))
  {
    Level2Write(lay, m2, m3, n);
    Pml4AfterLevel2(lay, m2, m3, n);
    PdptAfterLevel2(lay, m2, m3, n);
    PdAfterLevel2(lay, m2, m3, n);
    StepRegions(lay, n);
    PdFrameBound(lay, n + 1, lay.StepG(n));
    assert InTables(lay, Level2Word(lay, n), lay.Used(n + 1));
  }

  // ----- the imperative operations -----

  /** `PageTable::zero`: the 512 words of the table at word `fw` become 0. */
  method ZeroTable(mem: array<u64>, fw: nat)
    requires fw + TABLE_ENTRIES <= mem.Length
    modifies mem
    ensures mem[..] == Zeroed(old(mem[..]), fw)
  {
    for i := 0 to TABLE_ENTRIES
      invariant forall x :: 0 <= x < mem.Length && !(fw <= x < fw + i) ==> mem[x] == old(mem[x])
      invariant forall x :: fw <= x < fw + i ==> mem[x] == 0
    {
      mem[fw + i] := 0;
    }
    assert mem[..] == Zeroed(old(mem[..]), fw);
  }

  /**
   * `create_next_table` for the entry at word `w` with the parent flags
   * PRESENT | WRITABLE: an unused entry gets the allocator's next frame and
   * the new table is zeroed; a used entry is followed. Returns the address
   * of the next table. Running out of frames and an entry that is a huge
   * page are errors that the caller unwraps, so they are excluded here.
   */
  method NextTable(mem: array<u64>, alloc: BumpAllocator, lay: TableLayout, w: nat) returns (next: nat)
    requires alloc.Valid() && alloc.start == lay.FrameAddr(0) && lay.tablesOffset % PAGE_SIZE == 0
    requires w < mem.Length
    requires mem[w] == 0 ==>
               alloc.cnt < alloc.length && FrameAddress(lay.FrameAddr(alloc.cnt))
               && lay.FrameWord(alloc.cnt) + TABLE_ENTRIES <= mem.Length
    requires mem[w] != 0 ==> Present(mem[w]) && Writable(mem[w]) && !Huge(mem[w])
    modifies mem, alloc
    ensures alloc.Valid() && alloc.cnt == old(alloc.cnt) + (if old(mem[w]) == 0 then 1 else 0)
    ensures TableStep(old(mem[..]), mem[..], w, lay.FrameAddr(old(alloc.cnt)), lay.FrameWord(old(alloc.cnt)), next)
  {
    if mem[w] == 0 {
      ghost var c := alloc.cnt;
      var frame := alloc.AllocateFrame();
      next := frame.value;
      assert next == lay.FrameAddr(c);
      mem[w] := MakeEntry(next, TABLE_FLAGS);
      WordOfFrame(lay, c);
      ZeroTable(mem, lay.WordOf(next));
    } else {
      next := EntryAddr(mem[w]);
    }
  }

  /**
   * The first step of `map_to`'s walk for the 2 MiB page at `addr`, the
   * page of step `n`: `create_next_table` on the page's PML4 entry.
   * Returns the page's PDPT.
   */
  method MapLevel4(mem: array<u64>, alloc: BumpAllocator, lay: TableLayout, ghost n: nat, addr: nat, ghost mS: seq<u64>) returns (pdpt: nat)
    requires lay.Ok() && n < lay.Pages() && addr == lay.StepPage(n) * GUEST_PAGE_SIZE
    requires lay.FrameWord(lay.frameCount) <= mem.Length
    requires alloc.Valid() && alloc.start == lay.FrameAddr(0) && alloc.length == lay.frameCount && alloc.cnt == lay.Used(n)
    requires Mapped(lay, mem[..], n) && OnlyTablesChanged(lay, mS, mem[..], lay.Used(n))
    modifies mem, alloc
    ensures alloc.Valid() && alloc.cnt == lay.UsedWithPdpt(n)
    ensures Pml4Ok(lay, mem[..], n + 1) && PdptOk(lay, mem[..], n + 1, n) && PdOk(lay, mem[..], n, n)
    ensures OnlyTablesChanged(lay, mS, mem[..], lay.UsedWithPdpt(n))
    ensures 0 <= Level3Word(lay, n) && lay.WordOf(pdpt) + P3Index(addr) == Level3Word(lay, n)
  {
    ghost var m0 := mem[..];
    ghost var k := alloc.cnt;
    var w := lay.Pml4Word() + P4Index(addr);
    Level4Pre(lay, m0, n, addr, mem.Length, k);
    assert m0[w] == mem[w];
    pdpt := NextTable(mem, alloc, lay, w);
    AfterLevel4(lay, mS, m0, mem[..], n, w, k, pdpt);
  }

  /**
   * The second step of `map_to`'s walk for the page of step `n`:
   * `create_next_table` on the page's PDPT entry. Returns the page's PD.
   */
  method MapLevel3(mem: array<u64>, alloc: BumpAllocator, lay: TableLayout, ghost n: nat, addr: nat, pdpt: nat, ghost mS: seq<u64>) returns (pd: nat)
    requires lay.Ok() && n < lay.Pages() && addr == lay.StepPage(n) * GUEST_PAGE_SIZE
    requires lay.FrameWord(lay.frameCount) <= mem.Length
    requires alloc.Valid() && alloc.start == lay.FrameAddr(0) && alloc.length == lay.frameCount && alloc.cnt == lay.UsedWithPdpt(n)
    requires Pml4Ok(lay, mem[..], n + 1) && PdptOk(lay, mem[..], n + 1, n) && PdOk(lay, mem[..], n, n)
    requires OnlyTablesChanged(lay, mS, mem[..], lay.UsedWithPdpt(n))
    requires 0 <= Level3Word(lay, n) && lay.WordOf(pdpt) + P3Index(addr) == Level3Word(lay, n)
    modifies mem, alloc
    ensures alloc.Valid() && alloc.cnt == lay.Used(n + 1)
    ensures Pml4Ok(lay, mem[..], n + 1) && PdptOk(lay, mem[..], n + 1, n + 1) && PdOk(lay, mem[..], n + 1, n)
    ensures OnlyTablesChanged(lay, mS, mem[..], lay.Used(n + 1))
    ensures 0 <= Level2Word(lay, n) && lay.WordOf(pd) + P2Index(addr) == Level2Word(lay, n)
  {
    ghost var m1 := mem[..];
    ghost var k := alloc.cnt;
    var w := lay.WordOf(pdpt) + P3Index(addr);
    Level3Pre(lay, m1, n, mem.Length, k);
    assert m1[w] == mem[w];
    pd := NextTable(mem, alloc, lay, w);
    AfterLevel3(lay, mS, m1, mem[..], n, w, k, pd);
  }

  /**
   * `identity_map` of the 2 MiB page at `addr`, the page of step `n`: the
   * walk creates the missing tables, then the PD entry is set to the page
   * with PRESENT | WRITABLE | HUGE_PAGE. Afterwards the first `n + 1` pages
   * are mapped and the allocator has handed out exactly their tables' frames.
   */
  method IdentityMapHuge(mem: array<u64>, alloc: BumpAllocator, lay: TableLayout, ghost n: nat, addr: nat, ghost mS: seq<u64>)
    requires lay.Ok() && n < lay.Pages() && addr == lay.StepPage(n) * GUEST_PAGE_SIZE
    requires lay.FrameWord(lay.frameCount) <= mem.Length
    requires alloc.Valid() && alloc.start == lay.FrameAddr(0) && alloc.length == lay.frameCount && alloc.cnt == lay.Used(n)
    requires Mapped(lay, mem[..], n) && OnlyTablesChanged(lay, mS, mem[..], lay.Used(n))
    modifies mem, alloc
    ensures alloc.Valid() && alloc.cnt == lay.Used(n + 1)
    ensures Mapped(lay, mem[..], n + 1) && OnlyTablesChanged(lay, mS, mem[..], lay.Used(n + 1))
  {
    var pdpt := MapLevel4(mem, alloc, lay, n, addr, mS);
    var pd := MapLevel3(mem, alloc, lay, n, addr, pdpt, mS);
    ghost var m2 := mem[..];
    var slot := lay.WordOf(pd) + P2Index(addr);
    Level2Unused(lay, m2, n);
    if mem[slot] != 0 {
      // `map_to` fails with `PageAlreadyMapped`; the step never sees a used entry.
      assert false;
    }
    mem[slot] := MakeEntry(addr, HUGE_FLAGS);
    AfterLevel2(lay, mS, m2, mem[..], n);
  }

  // ----- the whole run -----

  /** `m` with the three boot GDT descriptors written. */
  function GdtWritten(lay: TableLayout, m: seq<u64>): (r: seq<u64>)
    requires lay.GdtWord() + BOOT_GDT_MAX <= |m|
    ensures |r| == |m|
    ensures r[lay.GdtWord() + BOOT_GDT_NULL] == 0
    ensures r[lay.GdtWord() + BOOT_GDT_CODE] == GdtCodeEntry()
    ensures r[lay.GdtWord() + BOOT_GDT_DATA] == GdtDataEntry()
    ensures forall w :: 0 <= w < |m| && !(lay.GdtWord() <= w < lay.GdtWord() + BOOT_GDT_MAX) ==> r[w] == m[w]
  {
    m[lay.GdtWord() + BOOT_GDT_NULL := 0][lay.GdtWord() + BOOT_GDT_CODE := GdtCodeEntry()][lay.GdtWord() + BOOT_GDT_DATA := GdtDataEntry()]
  }

  /**
   * Before the loop: with PML4 entries 0-510 zero and entry 511 pointing
   * back at the PML4, the tables map no page yet.
   */
  lemma NothingMappedYet(lay: TableLayout, m: seq<u64>)
    requires lay.Ok() && lay.Pml4Word() + TABLE_ENTRIES <= |m|
    requires forall w :: lay.Pml4Word() <= w < lay.Pml4Word() + 511 ==> m[w] == 0
    requires m[lay.Pml4Word() + 511] as int == lay.guest + PML4_OFFSET + TABLE_FLAGS
    ensures Mapped(lay, m, 0)
  {
    forall i: int | 0 <= i < TABLE_ENTRIES
      ensures Pml4EntryOk(lay, m, i, 0)
    {
      if i < 511 {
        assert m[lay.Pml4Word() + i] == 0;
      }
    }
  }

  /** The PML4 is a page-aligned physical address: the recursive entry can hold it. */
  lemma Pml4IsFrame(lay: TableLayout)
    requires lay.guest % GUEST_PAGE_SIZE == 0 && lay.tablesOffset % PAGE_SIZE == 0
    requires lay.guest + MIN_PHYSMEM_SIZE <= MAX_PHYS
    ensures FrameAddress(lay.guest + PML4_OFFSET)
    ensures PageAligned(lay.guest + lay.tablesOffset)
  {
    var q := lay.guest / GUEST_PAGE_SIZE;
    var t := lay.tablesOffset / PAGE_SIZE;
    assert lay.guest == q * GUEST_PAGE_SIZE;
    assert lay.tablesOffset == t * PAGE_SIZE;
    var x := q * TABLE_ENTRIES + 16;
    assert lay.guest + PML4_OFFSET == x * PAGE_SIZE;
    MultipleAligned(x);
    MultipleAligned(q * TABLE_ENTRIES + t);
  }

  /** A multiple of the page size is page-aligned. */
  lemma MultipleAligned(x: int)
    requires 0 <= x
    ensures (x * PAGE_SIZE) % PAGE_SIZE == 0
  {
  }

  /** `step_by(2 MiB)` over `[guest, guest + length)` visits exactly the first `Pages()` pages. */
  lemma StepsCover(lay: TableLayout, n: nat)
    requires lay.guest % GUEST_PAGE_SIZE == 0
    ensures lay.StepPage(n) * GUEST_PAGE_SIZE == lay.guest + n * GUEST_PAGE_SIZE
    ensures lay.StepPage(n) * GUEST_PAGE_SIZE < lay.guest + lay.length <==> n < lay.Pages()
  {
    var d := GUEST_PAGE_SIZE;
    assert lay.guest == lay.P0() * d;
    var q := lay.Pages();
    assert q * d <= lay.length + d - 1 < q * d + d;
    if n < q {
      assert n * d <= (q - 1) * d;
    } else {
      assert n * d >= q * d;
    }
  }

  /**
   * `initialize_pagetables` (x86-64): writes the boot GDT, points PML4 entry
   * 511 back at the PML4, then identity-maps `[guest, guest + length)` with
   * 2 MiB pages, creating the PDPTs and PDs from a bump allocator over
   * `frameCount` frames at `guest + tablesOffset`. The PML4 must start out
   * zeroed. Afterwards the tables map exactly the first `Pages()` pages and
   * only the GDT, the PML4 and the allocator's frames changed.
   */
  method InitializePagetables(mem: array<u64>, lay: TableLayout)
    requires lay.Ok()
    requires mem.Length * ENTRY_SIZE >= MIN_PHYSMEM_SIZE
    requires lay.FrameWord(lay.frameCount) <= mem.Length
    requires forall w :: lay.Pml4Word() <= w < lay.Pml4Word() + 511 ==> mem[w] == 0
    modifies mem
    ensures mem[lay.GdtWord() + BOOT_GDT_NULL] == 0
    ensures mem[lay.GdtWord() + BOOT_GDT_CODE] == GdtCodeEntry()
    ensures mem[lay.GdtWord() + BOOT_GDT_DATA] == GdtDataEntry()
    ensures Mapped(lay, mem[..], lay.Pages())
    ensures OnlyTablesChanged(lay, GdtWritten(lay, old(mem[..])), mem[..], lay.Used(lay.Pages()))
  {
    ghost var mI := mem[..];
    var g := lay.GdtWord();
    mem[g + BOOT_GDT_NULL] := 0;
    mem[g + BOOT_GDT_CODE] := GdtCodeEntry();
    mem[g + BOOT_GDT_DATA] := GdtDataEntry();
    ghost var mG := mem[..];
    assert mG == GdtWritten(lay, mI);
    Pml4IsFrame(lay);
    mem[lay.Pml4Word() + 511] := MakeEntry(lay.guest + PML4_OFFSET, TABLE_FLAGS);
    NothingMappedYet(lay, mem[..]);
    IdentityMapGuest(mem, lay, mG);
    FramesApart(lay);
  }

  /**
   * The loop of `initialize_pagetables`: from tables that map no page yet,
   * maps each 2 MiB page of `[guest, guest + length)` in turn with frames
   * from a fresh bump allocator over the page-table area.
   */
  method IdentityMapGuest(mem: array<u64>, lay: TableLayout, ghost mG: seq<u64>)
    requires lay.Ok() && lay.FrameWord(lay.frameCount) <= mem.Length
    requires Mapped(lay, mem[..], 0) && OnlyTablesChanged(lay, mG, mem[..], 0)
    modifies mem
    ensures Mapped(lay, mem[..], lay.Pages())
    ensures OnlyTablesChanged(lay, mG, mem[..], lay.Used(lay.Pages()))
  {
    Pml4IsFrame(lay);
    var alloc := new BumpAllocator(lay.guest + lay.tablesOffset, lay.frameCount);
    var addr := lay.guest;
    ghost var n: nat := 0;
    StepsCover(lay, n);
    while addr < lay.guest + lay.length
      invariant n <= lay.Pages() && addr == lay.StepPage(n) * GUEST_PAGE_SIZE
      invariant alloc.Valid() && alloc.start == lay.FrameAddr(0) && alloc.length == lay.frameCount && alloc.cnt == lay.Used(n)
      invariant Mapped(lay, mem[..], n) && OnlyTablesChanged(lay, mG, mem[..], lay.Used(n))
      decreases lay.Pages() - n
    {
      StepsCover(lay, n);
      IdentityMapHuge(mem, alloc, lay, n, addr, mG);
      addr := addr + GUEST_PAGE_SIZE;
      n := n + 1;
      StepsCover(lay, n);
    }
    StepsCover(lay, n);
    UsedMonotone(lay, n, lay.Pages());
  }

  // ----- the translation the boot tables describe -----

  /** The table indices of any canonical address are those of its 2 MiB page. */
  lemma IndicesOfAddress(va: nat)
    requires va < CANONICAL_LIMIT
    ensures va / GUEST_PAGE_SIZE * GUEST_PAGE_SIZE <= va < CANONICAL_LIMIT
    ensures P4Index(va) == (va / GUEST_PAGE_SIZE) / PAGES_PER_PDPT < 256
    ensures P3Index(va) == ((va / GUEST_PAGE_SIZE) / PAGES_PER_PD) % PAGES_PER_PD
    ensures P2Index(va) == (va / GUEST_PAGE_SIZE) % PAGES_PER_PD
  {
    var p := va / GUEST_PAGE_SIZE;
    var s := va % GUEST_PAGE_SIZE;
    assert va == p * GUEST_PAGE_SIZE + s;
    var g := p / PAGES_PER_PD;
    assert va == g * 0x4000_0000 + ((p % PAGES_PER_PD) * GUEST_PAGE_SIZE + s);
    assert va / 0x4000_0000 == g;
    var r := p / PAGES_PER_PDPT;
    assert va == r * 0x80_0000_0000 + ((p % PAGES_PER_PDPT) * GUEST_PAGE_SIZE + s);
    assert va / 0x80_0000_0000 == r;
  }

  /** A page in use lies in a PD and a PDPT in use. */
  lemma RegionsOfPage(lay: TableLayout, nn: nat, p: int)
    requires lay.InP(nn, p)
    ensures lay.InG(nn, p / PAGES_PER_PD) && lay.InR(nn, p / PAGES_PER_PDPT)
  {
    PageRegions(p);
    PageRegions(lay.P0());
  }

  /** A PD in use lies in a PDPT in use. */
  lemma GroupInRegion(lay: TableLayout, g: int)
    requires lay.InG(lay.Pages(), g)
    ensures lay.InR(lay.Pages(), g / PAGES_PER_PD)
  {
    PageRegions(lay.P0());
    assert (g / PAGES_PER_PD) * PAGES_PER_PDPT <= g * PAGES_PER_PD;
  }

  /** The PML4 entry that translating `va` reads: present exactly when its PDPT is in use. */
  lemma WalkPml4(lay: TableLayout, m: seq<u64>, va: nat)
    requires lay.Ok() && Pml4Ok(lay, m, lay.Pages()) && va < CANONICAL_LIMIT
    ensures var r := (va / GUEST_PAGE_SIZE) / PAGES_PER_PDPT;
            var e := EntryAt(m, lay.guest, lay.guest + PML4_OFFSET, P4Index(va));
            e.Some? && (Present(e.value) <==> lay.InR(lay.Pages(), r))
            && (lay.InR(lay.Pages(), r) ==> 0 <= lay.PdptFrame(r) && EntryAddr(e.value) == lay.FrameAddr(lay.PdptFrame(r)))
  {
    var r := (va / GUEST_PAGE_SIZE) / PAGES_PER_PDPT;
    IndicesOfAddress(va);
    assert Pml4EntryOk(lay, m, r, lay.Pages());
    assert Slot(lay.guest, lay.guest + PML4_OFFSET, r) == lay.Pml4Word() + r;
    assert EntryAt(m, lay.guest, lay.guest + PML4_OFFSET, P4Index(va)) == Some(m[lay.Pml4Word() + r]);
    if lay.InR(lay.Pages(), r) {
      PdptFrameBound(lay, lay.Pages(), r);
      TableEntryOf(lay, lay.PdptFrame(r));
    }
  }

  /** The entry of PD `g` in its PDPT, when that PDPT is in use: present and no 1 GiB page exactly when `g` is in use, and then it holds PD `g`. */
  lemma PdptEntryAt(lay: TableLayout, m: seq<u64>, g: nat)
    requires lay.Ok() && PdptOk(lay, m, lay.Pages(), lay.Pages())
    requires lay.InR(lay.Pages(), g / PAGES_PER_PD)
    ensures 0 <= lay.PdptFrame(g / PAGES_PER_PD)
    ensures var e := EntryAt(m, lay.guest, lay.FrameAddr(lay.PdptFrame(g / PAGES_PER_PD)), g % PAGES_PER_PD);
            e.Some? && (Present(e.value) && !Huge(e.value) <==> lay.InG(lay.Pages(), g))
            && (lay.InG(lay.Pages(), g) ==> 0 <= lay.PdFrame(g) && EntryAddr(e.value) == lay.FrameAddr(lay.PdFrame(g)))
  {
    var r, gi := g / PAGES_PER_PD, g % PAGES_PER_PD;
    assert r * PAGES_PER_PD + gi == g;
    PdptFrameBound(lay, lay.Pages(), r);
    var k := lay.PdptFrame(r);
    WordOfFrame(lay, k);
    assert PdptEntryOk(lay, m, r, gi, lay.Pages());
    assert Slot(lay.guest, lay.FrameAddr(k), gi) == lay.FrameWord(k) + gi;
    if lay.InG(lay.Pages(), g) {
      PdFrameBound(lay, lay.Pages(), g);
      TableEntryOf(lay, lay.PdFrame(g));
    }
  }

  /** The entry of page `p` in its PD, when that PD is in use: `p` identity-mapped as a huge page when `p` is in use, else 0. */
  lemma PdEntryAt(lay: TableLayout, m: seq<u64>, p: nat)
    requires lay.Ok() && PdOk(lay, m, lay.Pages(), lay.Pages())
    requires lay.InG(lay.Pages(), p / PAGES_PER_PD) && p < CANONICAL_LIMIT / GUEST_PAGE_SIZE
    ensures 0 <= lay.PdFrame(p / PAGES_PER_PD)
    ensures var e := EntryAt(m, lay.guest, lay.FrameAddr(lay.PdFrame(p / PAGES_PER_PD)), p % PAGES_PER_PD);
            e.Some? && (Present(e.value) <==> lay.InP(lay.Pages(), p))
            && (lay.InP(lay.Pages(), p) ==> Huge(e.value) && EntryAddr(e.value) == p * GUEST_PAGE_SIZE)
  {
    var g, pi := p / PAGES_PER_PD, p % PAGES_PER_PD;
    PageRegions(p);
    PdFrameBound(lay, lay.Pages(), g);
    var k := lay.PdFrame(g);
    WordOfFrame(lay, k);
    assert PdEntryOk(lay, m, g, pi, lay.Pages());
    assert Slot(lay.guest, lay.FrameAddr(k), pi) == lay.FrameWord(k) + pi;
    if lay.InP(lay.Pages(), p) {
      assert FrameAddress(p * GUEST_PAGE_SIZE);
      MakeEntryFields(p * GUEST_PAGE_SIZE, HUGE_FLAGS);
      BootFlagBits();
    }
  }

  /** `Translate` read off the three entries it visits. */
  lemma TranslateThrough(mem: seq<u64>, base: nat, pml4: nat, va: nat, e4: u64, e3: u64, e2: u64)
    requires EntryAt(mem, base, pml4, P4Index(va)) == Some(e4)
    requires Present(e4) ==> EntryAt(mem, base, EntryAddr(e4), P3Index(va)) == Some(e3)
    requires Present(e4) && Present(e3) && !Huge(e3) ==> EntryAt(mem, base, EntryAddr(e3), P2Index(va)) == Some(e2)
    ensures Translate(mem, base, pml4, va)
            == if Present(e4) && Present(e3) && !Huge(e3) && Present(e2) && Huge(e2)
               then Some(EntryAddr(e2) + va % GUEST_PAGE_SIZE) else None
  {
  }

  /** A walk ending at a huge entry that holds the start of `va`'s own page translates `va` to itself. */
  lemma TranslateHit(mem: seq<u64>, base: nat, pml4: nat, va: nat, e4: u64, e3: u64, e2: u64)
    requires EntryAt(mem, base, pml4, P4Index(va)) == Some(e4) && Present(e4)
    requires EntryAt(mem, base, EntryAddr(e4), P3Index(va)) == Some(e3) && Present(e3) && !Huge(e3)
    requires EntryAt(mem, base, EntryAddr(e3), P2Index(va)) == Some(e2) && Present(e2) && Huge(e2)
    requires EntryAddr(e2) + va % GUEST_PAGE_SIZE == va
    ensures Translate(mem, base, pml4, va) == Some(va)
  {
    TranslateThrough(mem, base, pml4, va, e4, e3, e2);
  }

  /** Outside the PDPTs in use the walk stops at the PML4. */
  lemma BootOutsidePdpts(lay: TableLayout, m: seq<u64>, va: nat)
    requires lay.Ok() && Mapped(lay, m, lay.Pages()) && va < CANONICAL_LIMIT
    requires !lay.InR(lay.Pages(), (va / GUEST_PAGE_SIZE) / PAGES_PER_PDPT)
    ensures Translate(m, lay.guest, lay.guest + PML4_OFFSET, va) == None
  {
    WalkPml4(lay, m, va);
    var e4 := EntryAt(m, lay.guest, lay.guest + PML4_OFFSET, P4Index(va)).value;
    TranslateThrough(m, lay.guest, lay.guest + PML4_OFFSET, va, e4, 0, 0);
  }

  /** Inside a PDPT in use but outside the PDs in use the walk stops at the PDPT. */
  lemma BootOutsidePds(lay: TableLayout, m: seq<u64>, va: nat)
    requires lay.Ok() && Mapped(lay, m, lay.Pages()) && va < CANONICAL_LIMIT
    requires lay.InR(lay.Pages(), (va / GUEST_PAGE_SIZE) / PAGES_PER_PDPT)
    requires !lay.InG(lay.Pages(), (va / GUEST_PAGE_SIZE) / PAGES_PER_PD)
    ensures Translate(m, lay.guest, lay.guest + PML4_OFFSET, va) == None
  {
    var p := va / GUEST_PAGE_SIZE;
    var r, g := p / PAGES_PER_PDPT, p / PAGES_PER_PD;
    IndicesOfAddress(va);
    PageRegions(p);
    WalkPml4(lay, m, va);
    PdptEntryAt(lay, m, g);
    var e4 := EntryAt(m, lay.guest, lay.guest + PML4_OFFSET, P4Index(va)).value;
    var e3 := EntryAt(m, lay.guest, EntryAddr(e4), P3Index(va)).value;
    TranslateThrough(m, lay.guest, lay.guest + PML4_OFFSET, va, e4, e3, 0);
  }

  /** Inside a PD in use the walk reaches that PD, whose entry for `va` is a huge page holding `va`'s page exactly when that page is in use. */
  lemma BootEntries(lay: TableLayout, m: seq<u64>, va: nat) returns (e4: u64, e3: u64, e2: u64)
    requires lay.Ok() && Mapped(lay, m, lay.Pages()) && va < CANONICAL_LIMIT
    requires lay.InG(lay.Pages(), (va / GUEST_PAGE_SIZE) / PAGES_PER_PD)
    ensures EntryAt(m, lay.guest, lay.guest + PML4_OFFSET, P4Index(va)) == Some(e4) && Present(e4)
    ensures EntryAt(m, lay.guest, EntryAddr(e4), P3Index(va)) == Some(e3) && Present(e3) && !Huge(e3)
    ensures EntryAt(m, lay.guest, EntryAddr(e3), P2Index(va)) == Some(e2)
    ensures Present(e2) <==> lay.InP(lay.Pages(), va / GUEST_PAGE_SIZE)
    ensures Present(e2) ==> Huge(e2) && EntryAddr(e2) + va % GUEST_PAGE_SIZE == va
  {
    var p := va / GUEST_PAGE_SIZE;
    var r, g := p / PAGES_PER_PDPT, p / PAGES_PER_PD;
    IndicesOfAddress(va);
    PageRegions(p);
    GroupInRegion(lay, g);
    WalkPml4(lay, m, va);
    PdptEntryAt(lay, m, g);
    PdEntryAt(lay, m, p);
    var pdpt, pd := lay.FrameAddr(lay.PdptFrame(r)), lay.FrameAddr(lay.PdFrame(g));
    e4 := EntryAt(m, lay.guest, lay.guest + PML4_OFFSET, P4Index(va)).value;
    assert EntryAddr(e4) == pdpt && P3Index(va) == g % PAGES_PER_PD;
    e3 := EntryAt(m, lay.guest, pdpt, g % PAGES_PER_PD).value;
    assert EntryAddr(e3) == pd && P2Index(va) == p % PAGES_PER_PD;
    e2 := EntryAt(m, lay.guest, pd, p % PAGES_PER_PD).value;
  }

  /** Inside a PD in use, `va` translates to itself exactly when its page is in use. */
  lemma BootInsidePds(lay: TableLayout, m: seq<u64>, va: nat)
    requires lay.Ok() && Mapped(lay, m, lay.Pages()) && va < CANONICAL_LIMIT
    requires lay.InG(lay.Pages(), (va / GUEST_PAGE_SIZE) / PAGES_PER_PD)
    ensures Translate(m, lay.guest, lay.guest + PML4_OFFSET, va)
            == if lay.InP(lay.Pages(), va / GUEST_PAGE_SIZE) then Some(va) else None
  {
    var e4, e3, e2 := BootEntries(lay, m, va);
    if Present(e2) {
      TranslateHit(m, lay.guest, lay.guest + PML4_OFFSET, va, e4, e3, e2);
    } else {
      TranslateThrough(m, lay.guest, lay.guest + PML4_OFFSET, va, e4, e3, e2);
    }
  }

  /**
   * The tables `initialize_pagetables` builds identity-map the guest: a
   * canonical address translates to itself exactly when it lies in
   * `[guest, guest + Pages() * 2 MiB)`, the mapped range rounded up to
   * whole 2 MiB pages, and to nothing otherwise.
   */
  lemma BootTablesIdentityMap(lay: TableLayout, m: seq<u64>, va: nat)
    requires lay.Ok() && Mapped(lay, m, lay.Pages()) && va < CANONICAL_LIMIT
    ensures Translate(m, lay.guest, lay.guest + PML4_OFFSET, va)
            == if lay.guest <= va < lay.guest + lay.Pages() * GUEST_PAGE_SIZE then Some(va) else None
  {
    var p := va / GUEST_PAGE_SIZE;
    var nn := lay.Pages();
    assert lay.guest == lay.P0() * GUEST_PAGE_SIZE;
    assert lay.InP(nn, p) <==> lay.guest <= va < lay.guest + nn * GUEST_PAGE_SIZE;
    if lay.InP(nn, p) {
      RegionsOfPage(lay, nn, p);
    }
    if !lay.InR(nn, p / PAGES_PER_PDPT) {
      BootOutsidePdpts(lay, m, va);
    } else if !lay.InG(nn, p / PAGES_PER_PD) {
      BootOutsidePds(lay, m, va);
    } else {
      BootInsidePds(lay, m, va);
    }
  }
}
