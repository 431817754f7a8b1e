/**
 * The boot page tables of the guest (`UhyvePageTable`): a GDT with a null, a
 * 64-bit code and a data descriptor, and one PML4, one PDPT and one PD that
 * identity-map the first GiB with 2 MiB pages.
 *
 * The tables are addressed in `mem` at their absolute guest-physical
 * addresses: word `w` of `mem` is the 8 bytes at address `8 * w`.
 */
module Paging {
  import opened Common
  import opened Consts
  import opened ArchPaging

  datatype UhyvePageTable = UhyvePageTable(
    bootGdt: nat,
    bootPml4: nat,
    bootPgt: nat,
    bootPdpte: nat,
    bootPde: nat,
    bootInfoAddr: nat)
  {
    /** Every table address is `guest + OFFSET` for the same `guest`. */
    predicate LaidOutAt(guest: nat) {
      bootGdt == guest + GDT_OFFSET
      && bootPml4 == guest + PML4_OFFSET
      && bootPgt == guest + PGT_OFFSET
      && bootPdpte == guest + PDPTE_OFFSET
      && bootPde == guest + PDE_OFFSET
    }

    /**
     * The shape `New` produces for a page-aligned guest address whose tables
     * lie below the 2^52 physical-address limit (`set_addr` asserts both).
     */
    predicate WellFormed() {
      bootGdt >= GDT_OFFSET
      && LaidOutAt(bootGdt - GDT_OFFSET)
      && PageAligned(bootGdt - GDT_OFFSET)
      && bootPde + PAGE_SIZE <= MAX_PHYS
    }

    /** Word indices of the GDT and of the three tables in memory. */
    function GdtWord(): nat { bootGdt / ENTRY_SIZE }
    function Pml4Word(): nat { bootPml4 / ENTRY_SIZE }
    function PdpteWord(): nat { bootPdpte / ENTRY_SIZE }
    function PdeWord(): nat { bootPde / ENTRY_SIZE }

    /** `get_min_physmem_size`: the byte length `mem` needs to hold the PD. */
    function MinPhysmemSize(): nat {
      bootPde + 0x1000
    }
  }

  /** `UhyvePageTable::new`: the tables of a guest starting at `guestAddress`. */
  function New(guestAddress: nat, infoAddrOffset: nat): (pt: UhyvePageTable)
    ensures pt.LaidOutAt(guestAddress)
    ensures pt.bootInfoAddr == infoAddrOffset
    ensures PageAligned(guestAddress) && guestAddress + MIN_PHYSMEM_SIZE <= MAX_PHYS ==> pt.WellFormed()
  {
    UhyvePageTable(
      guestAddress + GDT_OFFSET,
      guestAddress + PML4_OFFSET,
      guestAddress + PGT_OFFSET,
      guestAddress + PDPTE_OFFSET,
      guestAddress + PDE_OFFSET,
      infoAddrOffset)
  }

  /**
   * The boot-info address does not move with the guest; the PDPT and the PD
   * follow the PML4 page by page; at guest address 0 the minimum memory size
   * is `MIN_PHYSMEM_SIZE`.
   */
  lemma NewLayout(g1: nat, g2: nat, infoAddrOffset: nat)
    ensures New(g1, infoAddrOffset).bootInfoAddr == New(g2, infoAddrOffset).bootInfoAddr
    ensures New(g1, infoAddrOffset).bootPdpte == New(g1, infoAddrOffset).bootPml4 + PAGE_SIZE
    ensures New(g1, infoAddrOffset).bootPde == New(g1, infoAddrOffset).bootPdpte + PAGE_SIZE
    ensures New(g1, infoAddrOffset).bootPgt == New(g1, infoAddrOffset).bootPml4
    ensures New(0, infoAddrOffset).MinPhysmemSize() == MIN_PHYSMEM_SIZE
    ensures New(g1, infoAddrOffset).MinPhysmemSize() == g1 + MIN_PHYSMEM_SIZE
  {
  }

  /** The GDT and the three tables occupy disjoint word ranges, in this order. */
  lemma WordLayout(pt: UhyvePageTable)
    requires pt.WellFormed()
    ensures pt.GdtWord() + BOOT_GDT_MAX <= pt.Pml4Word()
    ensures pt.PdpteWord() == pt.Pml4Word() + TABLE_ENTRIES
    ensures pt.PdeWord() == pt.PdpteWord() + TABLE_ENTRIES
    ensures (pt.PdeWord() + TABLE_ENTRIES) * ENTRY_SIZE == pt.MinPhysmemSize()
  {
  }

  /** The value `initialize_pagetables` leaves in word `w` of memory `m`. */
  function BootWord(pt: UhyvePageTable, m: seq<u64>, w: nat): u64
    requires pt.WellFormed() && w < |m|
  {
    var gdt, pml4, pdpte, pde := pt.GdtWord(), pt.Pml4Word(), pt.PdpteWord(), pt.PdeWord();
    if w == gdt + BOOT_GDT_NULL then 0
    else if w == gdt + BOOT_GDT_CODE then GdtCodeEntry()
    else if w == gdt + BOOT_GDT_DATA then GdtDataEntry()
    else if w == pml4 then MakeEntry(pt.bootPdpte, TABLE_FLAGS)
    else if w == pml4 + 511 then MakeEntry(pt.bootPml4, TABLE_FLAGS)
    else if w == pdpte then MakeEntry(pt.bootPde, TABLE_FLAGS)
    else if pde <= w < pde + TABLE_ENTRIES then HugeEntry(w - pde)
    else m[w]
  }

  /** PD entry `i`: the 2 MiB page at `i * 2 MiB`, present, writable and huge. */
  function HugeEntry(i: nat): u64
    requires i < TABLE_ENTRIES
  {
    assert FrameAddress(i * GUEST_PAGE_SIZE);
    MakeEntry(i * GUEST_PAGE_SIZE, HUGE_FLAGS)
  }

  /** The whole memory after `initialize_pagetables` ran on `m`. */
  function BootTables(pt: UhyvePageTable, m: seq<u64>): (r: seq<u64>)
    requires pt.WellFormed()
    ensures |r| == |m|
  {
    seq(|m|, w requires 0 <= w < |m| => BootWord(pt, m, w))
  }

  /**
   * `initialize_pagetables`: writes the three GDT descriptors, PML4[0] ->
   * PDPT, the recursive PML4[511] -> PML4, PDPT[0] -> PD and the 512 huge
   * PD entries; no other word of `mem` changes.
   */
  method InitializePagetables(pt: UhyvePageTable, mem: array<u64>)
    requires pt.WellFormed()
    requires mem.Length * ENTRY_SIZE >= pt.MinPhysmemSize()
    modifies mem
    ensures mem[..] == BootTables(pt, old(mem[..]))
  {
    ghost var m0 := mem[..];
    WriteGdtAndRoots(pt, mem);
    var pde := pt.PdeWord();
    for i := 0 to TABLE_ENTRIES
      invariant forall w :: 0 <= w < mem.Length && !(pde + i <= w < pde + TABLE_ENTRIES) ==>
                  mem[w] == BootWord(pt, m0, w)
      invariant forall w :: pde + i <= w < pde + TABLE_ENTRIES ==> mem[w] == m0[w]
    {
      mem[pde + i] := HugeEntry(i);
    }
    assert mem[..] == BootTables(pt, m0);
  }

  /**
   * The first part of `initialize_pagetables`: the GDT descriptors and the
   * PML4 and PDPT entries; the PD is not yet written.
   */
  method WriteGdtAndRoots(pt: UhyvePageTable, mem: array<u64>)
    requires pt.WellFormed()
    requires mem.Length * ENTRY_SIZE >= pt.MinPhysmemSize()
    modifies mem
    ensures pt.PdeWord() + TABLE_ENTRIES <= mem.Length
    ensures forall w :: 0 <= w < mem.Length && !(pt.PdeWord() <= w < pt.PdeWord() + TABLE_ENTRIES) ==>
              mem[w] == BootWord(pt, old(mem[..]), w)
    ensures forall w :: pt.PdeWord() <= w < pt.PdeWord() + TABLE_ENTRIES ==> mem[w] == old(mem[w])
  {
    ghost var m0 := mem[..];
    WordLayout(pt);
    var gdt, pml4, pdpte := pt.GdtWord(), pt.Pml4Word(), pt.PdpteWord();
    mem[gdt + BOOT_GDT_NULL] := 0;
    mem[gdt + BOOT_GDT_CODE] := GdtCodeEntry();
    mem[gdt + BOOT_GDT_DATA] := GdtDataEntry();

    mem[pml4] := MakeEntry(pt.bootPdpte, TABLE_FLAGS);
    mem[pml4 + 511] := MakeEntry(pt.bootPml4, TABLE_FLAGS);
    mem[pdpte] := MakeEntry(pt.bootPde, TABLE_FLAGS);
  }

  /** `init_guest_mem` is exactly `initialize_pagetables`. */
  method InitGuestMem(pt: UhyvePageTable, mem: array<u64>)
    requires pt.WellFormed()
    requires mem.Length * ENTRY_SIZE >= pt.MinPhysmemSize()
    modifies mem
    ensures mem[..] == BootTables(pt, old(mem[..]))
  {
    InitializePagetables(pt, mem);
  }

  /** The boot GDT holds the null, the code and the data descriptor. */
  lemma BootGdt(pt: UhyvePageTable, m: seq<u64>)
    requires pt.WellFormed() && |m| * ENTRY_SIZE >= pt.MinPhysmemSize()
    ensures BootTables(pt, m)[pt.bootGdt / ENTRY_SIZE + BOOT_GDT_NULL] == 0
    ensures BootTables(pt, m)[pt.bootGdt / ENTRY_SIZE + BOOT_GDT_CODE] == 0xAF9B000000FFFF
    ensures BootTables(pt, m)[pt.bootGdt / ENTRY_SIZE + BOOT_GDT_DATA] == 0xCF93000000FFFF
  {
    BootGdtValues();
  }

  /**
   * The tables identity-map the first GiB: every address below 1 GiB is
   * reached through PML4[0], PDPT[0] and a present, writable, huge PD entry
   * for its own 2 MiB page, and translates to itself.
   */
  lemma BootTablesIdentityMapFirstGiB(pt: UhyvePageTable, m: seq<u64>, va: nat)
    requires pt.WellFormed() && |m| * ENTRY_SIZE >= pt.MinPhysmemSize()
    requires va < 0x4000_0000
    ensures FrameAddress(va / GUEST_PAGE_SIZE * GUEST_PAGE_SIZE)
    ensures MapsHuge(BootTables(pt, m), 0, pt.bootPml4, va, va / GUEST_PAGE_SIZE * GUEST_PAGE_SIZE)
    ensures Walk(BootTables(pt, m), 0, pt.bootPml4, va).value.pdpt == pt.bootPdpte
    ensures Walk(BootTables(pt, m), 0, pt.bootPml4, va).value.pd == pt.bootPde
    ensures Translate(BootTables(pt, m), 0, pt.bootPml4, va) == Some(va)
  {
    var r := BootTables(pt, m);
    var i := va / GUEST_PAGE_SIZE;
    assert P4Index(va) == 0 && P3Index(va) == 0 && P2Index(va) == i;
    MakeEntryFields(pt.bootPdpte, TABLE_FLAGS);
    MakeEntryFields(pt.bootPde, TABLE_FLAGS);
    MakeEntryFields(i * GUEST_PAGE_SIZE, HUGE_FLAGS);
    BootFlagBits();
    BootEntriesFirstGiB(pt, m, i);
    MapsHugeTranslates(r, 0, pt.bootPml4, va);
  }

  /** The entries on the way to 2 MiB page `i`: PML4[0], PDPT[0] and PD[i]. */
  lemma BootEntriesFirstGiB(pt: UhyvePageTable, m: seq<u64>, i: nat)
    requires pt.WellFormed() && |m| * ENTRY_SIZE >= pt.MinPhysmemSize()
    requires i < TABLE_ENTRIES
    ensures EntryAt(BootTables(pt, m), 0, pt.bootPml4, 0) == Some(MakeEntry(pt.bootPdpte, TABLE_FLAGS))
    ensures EntryAt(BootTables(pt, m), 0, pt.bootPdpte, 0) == Some(MakeEntry(pt.bootPde, TABLE_FLAGS))
    ensures EntryAt(BootTables(pt, m), 0, pt.bootPde, i) == Some(HugeEntry(i))
  {
    WordLayout(pt);
  }

  /** The PML4 and PDPT pages of `m` hold only zero words; the PD page is overwritten whole. */
  predicate TablesZeroed(pt: UhyvePageTable, m: seq<u64>)
    requires pt.WellFormed() && |m| * ENTRY_SIZE >= pt.MinPhysmemSize()
  {
    forall w :: pt.bootPml4 / ENTRY_SIZE <= w < pt.bootPdpte / ENTRY_SIZE + TABLE_ENTRIES ==> m[w] == 0
  }

  /**
   * On zeroed tables nothing else is mapped: every lower-half address above
   * the first GiB (outside the recursive PML4 slot 511) meets a non-present
   * PML4 or PDPT entry.
   */
  lemma BootTablesMapNothingElse(pt: UhyvePageTable, m: seq<u64>, va: nat)
    requires pt.WellFormed() && |m| * ENTRY_SIZE >= pt.MinPhysmemSize()
    requires TablesZeroed(pt, m)
    requires 0x4000_0000 <= va < 0x1_0000_0000_0000 && P4Index(va) != 511
    ensures Walk(BootTables(pt, m), 0, pt.bootPml4, va).None?
  {
    var r := BootTables(pt, m);
    var p4 := P4Index(va);
    if p4 == 0 {
      MakeEntryFields(pt.bootPdpte, TABLE_FLAGS);
      BootFlagBits();
      assert va < 0x80_0000_0000;
      var p3 := P3Index(va);
      assert p3 != 0;
      assert EntryAt(r, 0, pt.bootPdpte, p3) == Some(0);
    } else {
      assert EntryAt(r, 0, pt.bootPml4, p4) == Some(0);
    }
  }
}
