/**
 * The fixed guest-memory layout: every offset is relative to the guest's
 * physical start address (`guest_address + OFFSET`).
 */
module Consts {

  const PAGE_SIZE: nat := 0x1000

  const GDT_KERNEL_CODE: nat := 1
  const GDT_KERNEL_DATA: nat := 2
  const APIC_DEFAULT_BASE: nat := 0xfee00000

  // Slots of the boot GDT.
  const BOOT_GDT_NULL: nat := 0
  const BOOT_GDT_CODE: nat := 1
  const BOOT_GDT_DATA: nat := 2
  const BOOT_GDT_MAX: nat := 3

  const GDT_OFFSET: nat := 0x1000
  const FDT_OFFSET: nat := 0x5000
  const BOOT_INFO_OFFSET: nat := 0x9000
  const PML4_OFFSET: nat := 0x10000
  const PGT_OFFSET: nat := 0x10000
  const PDPTE_OFFSET: nat := 0x11000
  const PDE_OFFSET: nat := 0x12000
  const MIN_PHYSMEM_SIZE: nat := 0x13000

  // Bits of the IA32_EFER model-specific register.
  const EFER_SCE: bv64 := 1        // system call extensions
  const EFER_LME: bv64 := 1 << 8   // long mode enable
  const EFER_LMA: bv64 := 1 << 10  // long mode active
  const EFER_NXE: bv64 := 1 << 11  // no-execute enable

  const IOAPIC_BASE: nat := 0xfec00000
  const IOAPIC_SIZE: nat := 0x1000
  const KERNEL_STACK_SIZE: nat := 32_768
  const SHAREDQUEUE_START: nat := 0x80000
  const UHYVE_NET_MTU: nat := 1500
  const UHYVE_QUEUE_SIZE: nat := 8
  const UHYVE_IRQ_NET: nat := 11

  /** Size of the huge pages used to map the guest (2 MiB). */
  const GUEST_PAGE_SIZE: nat := 0x200000

  /** Size of one GDT descriptor and of one page-table entry, in bytes. */
  const ENTRY_SIZE: nat := 8

  /** Number of entries in one page table. */
  const TABLE_ENTRIES: nat := 512

  predicate PageAligned(x: nat) {
    x % PAGE_SIZE == 0
  }

  /** True when `b` has exactly one bit set, namely bit `k`. */
  predicate SingleBit(b: bv64, k: nat)
    requires k < 64
  {
    b == 1 << k
  }

  /**
   * The layout regions start on page boundaries, follow each other in the
   * order GDT < FDT < boot info < PML4 (= PGT) < PDPTE < PDE, and each page
   * table occupies exactly one page.
   */
  lemma LayoutOrderedAndAligned()
    ensures PageAligned(GDT_OFFSET) && PageAligned(FDT_OFFSET) && PageAligned(BOOT_INFO_OFFSET)
    ensures PageAligned(PML4_OFFSET) && PageAligned(PDPTE_OFFSET) && PageAligned(PDE_OFFSET)
    ensures GDT_OFFSET < FDT_OFFSET < BOOT_INFO_OFFSET < PML4_OFFSET
    ensures PGT_OFFSET == PML4_OFFSET
    ensures PDPTE_OFFSET == PML4_OFFSET + PAGE_SIZE && PDE_OFFSET == PDPTE_OFFSET + PAGE_SIZE
    ensures MIN_PHYSMEM_SIZE == PDE_OFFSET + PAGE_SIZE
  {
  }

  /** The `BOOT_GDT_MAX` descriptors fit between the GDT offset and the FDT. */
  lemma GdtFitsBeforeFdt()
    ensures GDT_OFFSET + BOOT_GDT_MAX * ENTRY_SIZE <= FDT_OFFSET
    ensures BOOT_GDT_NULL < BOOT_GDT_CODE < BOOT_GDT_DATA < BOOT_GDT_MAX
  {
  }

  /** A page table (512 entries of 8 bytes) is exactly one page; a huge page is 512 pages. */
  lemma PageSizes()
    ensures TABLE_ENTRIES * ENTRY_SIZE == PAGE_SIZE
    ensures GUEST_PAGE_SIZE == 0x200000 == TABLE_ENTRIES * PAGE_SIZE
  {
  }

  /** The EFER constants are the single bits 0, 8, 10 and 11, pairwise distinct. */
  lemma EferBits()
    ensures SingleBit(EFER_SCE, 0) && SingleBit(EFER_LME, 8)
    ensures SingleBit(EFER_LMA, 10) && SingleBit(EFER_NXE, 11)
    ensures EFER_SCE & EFER_LME == 0 && EFER_SCE & EFER_LMA == 0 && EFER_SCE & EFER_NXE == 0
    ensures EFER_LME & EFER_LMA == 0 && EFER_LME & EFER_NXE == 0 && EFER_LMA & EFER_NXE == 0
  {
  }
}
