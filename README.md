# uhyve core in Dafny

uhyve is a minimal hypervisor for Hermit unikernels. This project models the
parts of it that decide what a guest sees:

- **The boot page tables.** There are two generations. `UhyvePageTable`
  (`src/paging.rs`) writes one PML4, PDPT and PD that identity-map the first
  GiB. `initialize_pagetables` (`src/arch/x86_64/paging/mod.rs`) builds a GDT
  and a recursive PML4 slot, then identity-maps the guest's memory with 2 MiB
  pages, drawing table frames from a bump allocator.
- **The hypercalls the guest issues through I/O ports.** These are
  `address_to_hypercall`, `open`, `read`, `write`, `close`, `lseek`,
  `copy_argv` and `copy_env` in `src/hypercall.rs`.
- **File isolation.** `UhyveFileMap` (`src/isolation.rs`) maps guest paths to
  host paths. It resolves a file below a mapped directory and caches what it
  finds. The Landlock wrapper (`src/isolation/landlock.rs`) whitelists the
  parent directories of the mapped files.
- **The VM's layout decisions** (`src/vm.rs`). These are the guest address
  (optionally randomised), the CPU-frequency fallback chain, the `--` split of
  the kernel's command line, the serial output sink, and the loading of the
  kernel, the device tree and the boot information.

Modules follow the source files:

| Module | Source file |
|---|---|
| `Consts` | `consts.rs` |
| `Paging` | `paging.rs` |
| `ArchPaging` | `arch/x86_64/paging/mod.rs` |
| `Hypercalls` | `hypercall.rs` |
| `Isolation` | `isolation.rs` |
| `Landlock` | `isolation/landlock.rs` |
| `Vm` | `vm.rs` |

Five support modules hold the vocabulary these need:

- `Common`: `Option`.
- `Strings`: splitting and joining at a separator.
- `Paths`: parsed paths, the stand-in for `PathBuf`.
- `Utf8`: UTF-8 encoding and decoding, the stand-in for `str::from_utf8` and `as_bytes`.
- `GuestMemory`: byte stores into guest memory, and NUL-terminated strings.

Guest memory is represented in two ways:

- As bytes (`array<u8>` / `seq<u8>`) where the source copies bytes.
- As 64-bit words (`array<u64>`) where it writes page-table entries and GDT descriptors. Word `w` is the 8 bytes at offset `8 * w`.

Everything the hypervisor asks of the host is a function parameter of the
operation that asks it. This covers:

- files, `libc::open`/`read`/`write`/`close`/`lseek`;
- `fs::canonicalize` and `Path::exists`;
- the guest's virtual-to-physical translation and the host mapping of guest memory;
- the ELF loader and the device-tree builder;
- the random-number generator and the frequency probes.

The same applies to constants that are defined outside the modelled files:

- `KERNEL_OFFSET`, `RAM_START`, `INFO_ADDR_OFFSET`, `MAX_ARGC_ENVC`;
- `PAGETABLES_OFFSET`/`PAGETABLES_END`;
- the hypercall port numbers.

## Model

| member | source | states |
|---|---|---|
| Consts.LayoutOrderedAndAligned | src/consts.rs:12-19 | the boot structures are page-aligned and in increasing order; PGT is the PML4; PDPT, PD and the end of the minimum memory each follow one page after the previous |
| Consts.GdtFitsBeforeFdt | src/consts.rs:6-13 | the three boot GDT descriptors fit between the GDT offset and the device-tree offset |
| Consts.PageSizes | src/consts.rs:33 | a table of 512 eight-byte entries fills exactly one page, and a guest huge page (2 MiB) is 512 pages |
| Consts.EferBits | src/consts.rs:21-24 | the four EFER flags are single bits 0, 8, 10 and 11, pairwise disjoint |
| Strings.SplitPiecesFree | src/isolation.rs:73 | no piece of a split contains the separator |
| Strings.JoinSplit | src/isolation.rs:73-78 | joining the pieces of a split with the separator gives the original string back |
| Strings.SplitJoin | src/isolation.rs:73-78 | splitting a join of separator-free pieces gives the pieces back |
| Strings.SplitFirstTwo | src/isolation.rs:77-78 | the first piece is the text before the first separator, and the second is the text up to the next one |
| Paths.Parse | src/isolation.rs:107 | parsing yields only non-empty names other than `.` |
| Paths.ParseRender | src/isolation.rs:107-113 | parsing the text of a valid path gives the path back |
| Paths.RenderInjective | src/isolation.rs:110-113 | two valid paths with the same text are the same path, so an ancestor's map key names one ancestor |
| Paths.HostPush | src/isolation.rs:122 | pushing a component keeps the old path as a prefix and adds the component after one separator (none after a trailing one) |
| Paths.ExtendAppend | src/isolation.rs:121-127 | pushing components one run after another equals pushing their concatenation |
| Utf8.DecodeEncodeChar | src/hypercall.rs:98 | decoding the encoding of a character gives the character and the number of bytes used |
| Utf8.EncodeDecodeChar | src/vm.rs:302 | a well-formed UTF-8 sequence re-encodes to the bytes it was decoded from |
| Utf8.DecodeEncode | src/hypercall.rs:98-112 | decoding the encoding of any string succeeds and gives the string back |
| Utf8.EncodeDecode | src/vm.rs:302 | bytes that decode re-encode to exactly those bytes |
| Utf8.DecodeNoNul | src/hypercall.rs:98 | a decoded NUL-free byte string has no NUL character |
| Utf8.EncodeNoNul | src/isolation.rs:148 | the encoding of a NUL-free string has no zero byte, so `CString::new` accepts it |
| Utf8.EncodeAppend | src/vm.rs:301-307 | encoding distributes over concatenation |
| GuestMemory.Splice | src/hypercall.rs:226-227 | a copy into memory keeps its length, puts the bytes at the target and changes nothing else |
| GuestMemory.CopyFromSlice | src/hypercall.rs:226 | the array afterwards is the splice of the bytes into its old contents |
| GuestMemory.SpliceConcat | src/hypercall.rs:262-265 | writing two pieces side by side equals writing their concatenation |
| GuestMemory.ApplyAllDisjoint | src/hypercall.rs:231-239 | after pairwise-disjoint stores, each store's bytes are intact |
| GuestMemory.ApplyAllOutside | src/hypercall.rs:231-239 | a byte outside every store is unchanged |
| GuestMemory.CStr | src/hypercall.rs:98 | a NUL-terminated read stops at the first zero byte and contains none |
| GuestMemory.ReadBackStore | src/hypercall.rs:226-238 | after disjoint stores, reading a NUL-terminated string at a store gives the stored NUL-free bytes |
| Hypercalls.AddressToHypercall | src/hypercall.rs:23-77 | an unknown port gives no hypercall; a known port gives the hypercall of that port; the UART port carries the low byte of the data; every other port carries the parameter address |
| Hypercalls.OpenRequest | src/hypercall.rs:88-131 | without a file map the raw guest string is opened; with one, a path is opened iff it is valid UTF-8 and whitelisted, and what is opened is the mapped host path with no NUL byte |
| Hypercalls.Open | src/hypercall.rs:88-131 | a rejected request returns -1; an accepted one returns the host `open` result on the chosen path; flags, mode and name are unchanged |
| Hypercalls.OpenRejects | src/hypercall.rs:118-125 | a path that is not valid UTF-8 or not whitelisted is refused with -1 |
| Hypercalls.Read | src/hypercall.rs:141-155 | the result is the host byte count when it is non-negative and -1 otherwise, never below -1 |
| Hypercalls.Close | src/hypercall.rs:134-138 | the result is the host `close` result on the guest's descriptor |
| Hypercalls.Lseek | src/hypercall.rs:189-194 | the new offset is the host `lseek` result for the guest's descriptor, offset and whence |
| Hypercalls.WriteLoopStep | src/hypercall.rs:160-182 | one successful host write never passes the requested length, and keeps the loop's account of what has been written |
| Hypercalls.Write | src/hypercall.rs:158-186 | the outcome and the sequence of host writes are those of the reference definition of the retry loop |
| Hypercalls.WriteStepsTile | src/hypercall.rs:160-182 | each host write asks for exactly the unwritten rest of the buffer, and the next one starts where the previous one stopped |
| Hypercalls.WriteOutcome | src/hypercall.rs:158-186 | an empty write succeeds without a host call; a successful write ends exactly at the end of the buffer; an OS error is the result of the last host write |
| Hypercalls.ArgvStoresFit | src/hypercall.rs:221-236 | when the destinations are large enough, every argument store fits in guest memory |
| Hypercalls.StoreCString | src/hypercall.rs:226-227 | the bytes and a terminating zero are written at the target and nothing else changes |
| Hypercalls.CopyArgvAsWritten | src/hypercall.rs:211-240 | memory afterwards holds the path at slot 0 and then argument `i` at slot `i`, so argument 0 overwrites the path |
| Hypercalls.CopyArgvAsWrittenLosesPath | src/hypercall.rs:231-239 | for path "k" and argument "a", the code as written leaves no copy of the path; with argument `i` in slot `i + 1` both are present |
| Hypercalls.CopyArgv | src/hypercall.rs:211-240 | memory afterwards holds the kernel path at slot 0 and argument `i` at slot `i + 1`, each NUL-terminated |
| Hypercalls.ArgvReadBack | src/hypercall.rs:211-240 | with disjoint slots, the guest reads back the kernel path from slot 0 and argument `i` from slot `i + 1` |
| Hypercalls.EnvStores | src/hypercall.rs:250-266 | at most `MAX_ARGC_ENVC` variables are stored, each as `key=value` plus a zero at its own slot |
| Hypercalls.StoreEnvEntry | src/hypercall.rs:257-265 | `key`, `=`, `value` and a zero are written at the target and nothing else changes |
| Hypercalls.CopyEnv | src/hypercall.rs:243-267 | memory afterwards is the old memory with the first `min(count, MAX_ARGC_ENVC)` entries stored |
| Hypercalls.EnvReadBack | src/hypercall.rs:250-266 | with disjoint slots, the guest reads back `key=value` for every copied variable |
| Isolation.SplitGuestAndHostPath | src/isolation.rs:72-81 | the host part is the text before the first ':' and the guest part the text up to the next ':' or the end; neither contains ':' |
| Isolation.SplitGuestAndHostPathAt | src/isolation.rs:72-81 | the split is determined by the positions of the first two ':' |
| Isolation.SplitGuestAndHostPathEmptyParts | src/isolation.rs:165-199 | an empty host part or empty guest part is kept as an empty string |
| Isolation.SplitGuestAndHostPathDropsThird | src/isolation.rs:72-81 | text after a second ':' is dropped |
| Isolation.Collect | src/isolation.rs:49-59 | the map's guest paths are exactly the guest parts of the parameters |
| Isolation.CollectLastWins | src/isolation.rs:49-59 | a guest path mapped twice keeps the last host path, canonicalised when canonicalisation succeeds |
| Isolation.UhyveFileMap.constructor | src/isolation.rs:46-66 | the map holds the parameters' mappings, or nothing when there are no parameters |
| Isolation.Nearest | src/isolation.rs:108-113 | the ancestor chosen is mapped, and no ancestor closer to the file is |
| Isolation.NearestIs | src/isolation.rs:110-113 | the first mapped ancestor found from the file upwards is the one used |
| Isolation.KeysDistinct | src/isolation.rs:110-113 | different ancestors of a path have different keys |
| Isolation.LookupWithoutAncestorHit | src/isolation.rs:96-105 | a mapped path resolves to its host path; a lookup in an empty map, or one with no mapped ancestor, finds nothing and changes nothing |
| Isolation.UhyveFileMap.GetHostPathAsWritten | src/isolation.rs:96-137 | the result is the mapped host path, or the nearest mapped ancestor's host path extended by the rest of the path; the map gains the intermediate paths under keys relative to that ancestor |
| Isolation.UhyveFileMap.PushSuffixAsWritten | src/isolation.rs:115-130 | the host path is the ancestor's host path with every remaining component pushed; each prefix of the remainder is inserted under its relative key |
| Isolation.RelativePushedStep | src/isolation.rs:121-128 | one component pushed keeps the guest and host paths of the closure in step |
| Isolation.UhyveFileMap.GetHostPath | src/isolation.rs:96-137 | same result as the source; the map gains each intermediate path under its full guest path |
| Isolation.UhyveFileMap.PushSuffix | src/isolation.rs:115-130 | the host path is the ancestor's extended by the remainder; each full intermediate guest path is inserted |
| Isolation.FullPushedStep | src/isolation.rs:121-128 | one component pushed keeps the full guest path and the host path in step |
| Isolation.InsertFullNew | src/isolation.rs:121-127 | each intermediate guest path maps to the ancestor's host path extended to that depth |
| Isolation.InsertFullOld | src/isolation.rs:121-127 | every other key keeps its value |
| Isolation.InsertFullKeeps | src/isolation.rs:121-127 | inserting intermediate paths removes no key |
| Isolation.InsertFullOnly | src/isolation.rs:121-127 | every new key is one of the intermediate guest paths |
| Isolation.InsertRelativeKeeps | src/isolation.rs:121-127 | inserting relative keys removes no key |
| Isolation.LookupKeepsKeys | src/isolation.rs:96-137 | a lookup never removes a mapping, with either cache |
| Isolation.ResolveBetween | src/isolation.rs:108-130 | every intermediate path resolves, through the same ancestor, to the host path the cache stores for it |
| Isolation.ResolveUncached | src/isolation.rs:108-130 | a path the full-path cache does not name resolves the same before and after the cache is filled |
| Isolation.CachedTransparent | src/isolation.rs:96-137 | after a lookup of a path in normal form, every guest path resolves exactly as before |
| Isolation.AsWrittenCacheShadowsMapping | src/isolation.rs:116-127 | with "d" mapped to "h" and "x" to "k", looking up "d/x" makes "x" resolve to "h/x" instead of "k" |
| Isolation.UhyveFileMap.AppendFileAndReturnCString | src/isolation.rs:139-149 | the guest path now maps to the host path in every case. The C string comes back exactly when the host path has no NUL, as its encoding with no zero byte; a NUL gives the `unwrap` panic, after the insert |
| Isolation.AppendedResolves | src/isolation.rs:139-149 | a path just appended resolves to the host path given |
| Landlock.PopIsParent | src/isolation/landlock.rs:85 | popping removes exactly the last component |
| Landlock.GetParentDirectory | src/isolation/landlock.rs:78-92 | the result is the path itself when it exists, otherwise its parent, and it always exists |
| Landlock.ParentDirectoryIsAncestor | src/isolation/landlock.rs:78-92 | the whitelisted path is the mapped path or its parent, never anything outside it |
| Landlock.New | src/isolation/landlock.rs:28-54 | one whitelisted path per mapping, in order: the existing host path or its parent; the uhyve paths are kept as given |
| Paging.New | src/paging.rs:31-48 | every table sits at its offset from the guest address; the info address is the fixed offset |
| Paging.NewLayout | src/paging.rs:31-48 | the info address does not depend on the guest; PGT is the PML4; PDPT and PD follow one page apart; the minimum size ends one page after the PD |
| Paging.WordLayout | src/paging.rs:128-130 | the GDT words lie below the PML4; the three tables are consecutive 512-word blocks ending at the minimum memory size |
| Paging.InitializePagetables | src/paging.rs:56-121 | memory afterwards is the boot image defined word by word from the old memory |
| Paging.WriteGdtAndRoots | src/paging.rs:96-112 | the GDT and the three root entries are written and the PD is untouched |
| Paging.InitGuestMem | src/paging.rs:123-126 | same effect as `InitializePagetables` |
| Paging.BootGdt | src/paging.rs:97-99 | the GDT holds the null, 64-bit code and data descriptors 0, 0xAF9B000000FFFF, 0xCF93000000FFFF |
| Paging.BootEntriesFirstGiB | src/paging.rs:101-120 | PML4[0] points to the PDPT, PDPT[0] to the PD, and PD[i] is the huge page at i·2 MiB |
| Paging.BootTablesIdentityMapFirstGiB | src/paging.rs:101-120 | every address below 1 GiB walks through PDPT and PD to a 2 MiB page that maps it to itself |
| Paging.BootTablesMapNothingElse | src/paging.rs:101-112 | with the PML4 and PDPT pages zeroed, as the documented contract at src/paging.rs:53-55 asks, no canonical address from 1 GiB up walks to a mapping, except through the recursive slot 511 |
| ArchPaging.GdtFieldsRecovered | src/arch/x86_64/paging/mod.rs:11-17 | the flags, the 32-bit base and the 20-bit limit can be read back from a descriptor |
| ArchPaging.GdtEntryFromFields | src/arch/x86_64/paging/mod.rs:11-17 | every descriptor is the constructor applied to its own fields |
| ArchPaging.BootGdtValues | src/arch/x86_64/paging/mod.rs:246-254 | the code and data descriptors are 0xAF9B000000FFFF and 0xCF93000000FFFF |
| ArchPaging.MakeEntryFields | src/arch/x86_64/paging/mod.rs:104-107 | an entry built from a frame and flags gives back that frame, and its present, writable and huge bits are the flags' bits |
| ArchPaging.MapsHugeTranslates | src/arch/x86_64/paging/mod.rs:122-130 | an address whose walk ends in the huge page of its own 2 MiB frame translates to itself |
| ArchPaging.FramesLayout | src/arch/x86_64/paging/mod.rs:259-278 | the frames handed out are page-aligned, consecutive pages from the start, strictly increasing, within the capacity |
| ArchPaging.BumpAllocator.constructor | src/arch/x86_64/paging/mod.rs:28-35 | a page-aligned allocator starts with nothing handed out |
| ArchPaging.BumpAllocator.AllocateFrame | src/arch/x86_64/paging/mod.rs:38-50 | below capacity it returns the next page after the previous one and counts it; at capacity it returns nothing and changes nothing |
| ArchPaging.ZeroTable | src/arch/x86_64/paging/mod.rs:122-130 | a new table's 512 words are zeroed and nothing else changes |
| ArchPaging.NextTable | src/arch/x86_64/paging/mod.rs:122-130 | an empty entry gets a fresh zeroed frame from the allocator; a present entry is followed without allocating |
| ArchPaging.MapLevel4 | src/arch/x86_64/paging/mod.rs:122-130 | the PML4 entry of the page's 512 GiB region points to its PDPT; only table frames change |
| ArchPaging.MapLevel3 | src/arch/x86_64/paging/mod.rs:122-130 | the PDPT entry of the page's 1 GiB group points to its PD; only table frames change |
| ArchPaging.IdentityMapHuge | src/arch/x86_64/paging/mod.rs:122-130 | after mapping page `n`, the first `n + 1` pages are mapped and exactly the frames that needs are used |
| ArchPaging.GdtWritten | src/arch/x86_64/paging/mod.rs:98-101 | the three GDT words are null, code and data, and every other word is unchanged |
| ArchPaging.NothingMappedYet | src/arch/x86_64/paging/mod.rs:103-115 | a zeroed PML4 with only the recursive slot set maps no page yet |
| ArchPaging.StepsCover | src/arch/x86_64/paging/mod.rs:118-120 | step `n` is the address `guest + n · 2 MiB`, and the loop runs for exactly the pages that cover `length` |
| ArchPaging.InitializePagetables | src/arch/x86_64/paging/mod.rs:76-132 | the GDT descriptors are written, every guest page is identity-mapped, and only the PML4 and the allocated frames change besides the GDT |
| ArchPaging.IdentityMapGuest | src/arch/x86_64/paging/mod.rs:117-131 | the mapping loop maps every page and touches only table frames |
| ArchPaging.WalkPml4 | src/arch/x86_64/paging/mod.rs:210-219 | a PML4 entry is present exactly for regions holding guest pages, and then points to a frame from the allocator |
| ArchPaging.PdptEntryAt | src/arch/x86_64/paging/mod.rs:221-228 | a PDPT entry is present and not huge exactly for groups holding guest pages, and then points to an allocator frame |
| ArchPaging.PdEntryAt | src/arch/x86_64/paging/mod.rs:230-232 | a PD entry is present exactly for guest pages and is then the huge page of that address |
| ArchPaging.BootOutsidePdpts | src/arch/x86_64/paging/mod.rs:118-131 | an address in a 512 GiB region without guest pages is not mapped |
| ArchPaging.BootOutsidePds | src/arch/x86_64/paging/mod.rs:118-131 | an address in a 1 GiB group without guest pages is not mapped |
| ArchPaging.BootInsidePds | src/arch/x86_64/paging/mod.rs:118-131 | inside a mapped group an address maps to itself exactly when its page is a guest page |
| ArchPaging.BootTablesIdentityMap | src/arch/x86_64/paging/mod.rs:118-131 | a canonical address translates to itself exactly when it lies in the guest's mapped range, and otherwise to nothing |
| Vm.Separator | src/vm.rs:383-389 | the index of the first `--`, or the argument count when there is none |
| Vm.SplitArgsReassemble | src/vm.rs:383-396 | kernel arguments contain no `--`, and the kernel arguments, `--` and the application arguments reassemble the command line |
| Vm.MaskAddressBounds | src/vm.rs:124 | masking rounds down to a 64 KiB boundary by less than 64 KiB |
| Vm.GenerateAddress | src/vm.rs:111-131 | without ASLR the address is `RAM_START`; with it the address is 64 KiB aligned, at least 1 MiB, and leaves room for the kernel below the address limit |
| Vm.FirstSuccess | src/vm.rs:84-100 | the first probe that succeeds gives the frequency, and 0 means every probe failed |
| Vm.DetectCpuFreq | src/vm.rs:78-105 | the probes run in the order sysinfo, cpuid, hypervisor info, OS |
| Vm.DetectFreqFromSysinfo | src/vm.rs:55-75 | the first CPU's frequency is reported exactly when it is positive |
| Vm.CpuFreqNoneIffUndetected | src/vm.rs:421 | the boot information reports no frequency exactly when detection failed, and otherwise the frequency in kHz |
| Vm.KernelFitsAsWrittenRejectsFittingKernel | src/vm.rs:364-370 | a relocatable kernel of 0x60000 bytes at 0x9A000, in 1 MiB of guest memory at 0x99000, fits but is refused by the check as written, without the subtraction wrapping |
| Vm.KernelFitsAsWrittenExactly | src/vm.rs:364-370 | when the guest address is at most the memory size, the check as written accepts exactly the kernels ending `guest_address` bytes or more below the end of memory; it refuses a fitting kernel exactly when the kernel ends between `memory_size - guest_address` and `memory_size + guest_address` |
| Vm.KernelFitsAsWrittenIsStricter | src/vm.rs:364-370 | every kernel the check as written accepts also fits |
| Vm.KernelFitsIsSliceBound | src/vm.rs:372-380 | for a relocated kernel the corrected check is exactly the bound of the slice it is loaded into |
| Vm.UhyveVm.constructor | src/vm.rs:193-295 | a fixed-address kernel stays at its address with memory at `RAM_START`; a relocatable one is placed `KERNEL_OFFSET` above 0x99000 |
| Vm.UhyveVm.NumCpus | src/vm.rs:331-334 | the configured CPU count, at least one, and exactly one when a gdb port is set |
| Vm.UhyveVm.SerialOutput | src/vm.rs:297-312 | stdout and file sinks get the bytes appended, or the bytes the host took and an I/O error when it takes fewer; the buffer sink appends the decoded text or refuses invalid UTF-8 without change; no sink ignores them; only a host sink reports an I/O error |
| Vm.UhyveVm.LoadKernelAsWritten | src/vm.rs:359-439 | a failed re-read of the kernel file gives `Io`, and only it does; that read, a parse error or the size check as written fails without change; otherwise the image, device tree, entry point, boot information and stack are set |
| Vm.UhyveVm.LoadKernel | src/vm.rs:359-439 | the same with the corrected size check |
| Vm.UhyveVm.LoadChecked | src/vm.rs:372-436 | the image lies at the kernel offset, the device tree at its offset, and the boot information describes the guest range, UART port, CPU count and frequency; the stack ends at the kernel |

## Left out

- Hypercalls: guest addresses in the handlers that index guest memory are offsets from the guest's base address. The source's `host_address` and `slice_at_mut` subtract that base and check the bounds. Here the bounds are preconditions (`Terminated`, `ArgvFits`, `EnvFits`).
- Vm.UhyveVm.SerialOutput: how many bytes the host sink takes is an oracle (`accepted`). After a failure, the bytes written are a prefix of `buf`, as `write_all` leaves them.
- Host system calls are parameters of the operations that use them, and their results are taken as given. This covers `libc::open`/`read`/`write`/`close`/`lseek`, `fs::canonicalize`, `Path::exists` and stdout.
- `unlink`, `uart` and `uart_buffer` are not modelled. They only pass guest data to `libc::unlink` or stdout.
- `get_paths` is modelled as direct access to the file map's dictionary.
- `enforce_isolation` and `enforce_landlock` are not modelled. They only hand the whitelisted paths to the Landlock crate.
- The x86_64 crate's `MappedPageTable::identity_map` is modelled by its effect for 2 MiB pages: walk or allocate a PDPT and a PD, then write the huge entry.
- ArchPaging.NextTable: takes as a precondition that a used entry is present, writable and not huge. It also requires the allocator not to be exhausted. The source's `unwrap` would panic in those cases.
- ArchPaging.InitializePagetables: requires the layout to be sound. The guest must be 2 MiB aligned (the source's documented contract at src/arch/x86_64/paging/mod.rs:74), the mapped range canonical, and enough frames available. The table frames must not overlap the GDT or the PML4 and must lie inside `mem`. It also requires the PML4 to be zeroed apart from slot 511, as the source's comment demands.
- ArchPaging.InitializePagetables: the source's own unit test calls it with unaligned guest addresses 0x11120000, 0x111ff000 and 0xe1120000 (src/arch/x86_64/paging/mod.rs:175-177). It asserts at src/arch/x86_64/paging/mod.rs:232 that the PD entry holds the unaligned address. That case lies outside `TableLayout.Ok` and is not modelled.
- ArchPaging.InitializePagetables: requires `mem` to be at least `MIN_PHYSMEM_SIZE` bytes, so the `assert!` at src/arch/x86_64/paging/mod.rs:77 is a precondition rather than a modelled panic.
- Paging.InitializePagetables: requires a page-aligned guest address whose tables lie below 2^52, and memory at least `get_min_physmem_size` long. The source asserts the length, and `set_addr` asserts the rest.
- Vm.UhyveVm.constructor: does not run `init_guest_mem`. The page tables it writes are modelled by `Paging.InitGuestMem` and `ArchPaging.InitializePagetables`.
- Vm.UhyveVm.constructor: the virtio device, the virtualization backend, the gdb stub and the file map's `Mutex` are not modelled.
- Vm.UhyveVm.constructor: the address from `generate_address` is not used, as in the source.
- Vm.UhyveVm.constructor: requires a gdb port only with one CPU, so the `assert!` panic at src/vm.rs:245-248 is not modelled. The linux-only gdb assert at src/vm.rs:241-244 is left out, since the host OS is not modelled.
- Vm.UhyveVm.LoadKernelAsWritten: requires `guestAddress <= memorySize`. The source subtracts these as `u64`, and below that bound the subtraction would wrap.
- Vm.UhyveVm.LoadChecked: the boot information is kept as a field. The `RawBootInfo` byte layout at `BOOT_INFO_OFFSET`, `load_info`, `has_pci` and `boot_time` are not modelled.
- Vm.UhyveVm.LoadKernelAsWritten: `Loadable` is required of every kernel the size check accepts, so three panics are not modelled. They are the slice-bounds panic at src/vm.rs:376-377, the device-tree size `assert!` at src/vm.rs:402 and the stack `assert!` at src/vm.rs:432-436.
- Vm.UhyveVm.LoadKernel: requires `Loadable` of every kernel the corrected check accepts, so the panics at src/vm.rs:376-377, 402 and 432-436 are not modelled.
- Vm.UhyveVm.LoadChecked: requires `Loadable`, so it models only the path where the slice at src/vm.rs:376-377 is in bounds and the asserts at src/vm.rs:402 and 432-436 hold.
- Vm.UhyveVm.LoadChecked: the ELF relocation and the device-tree encoding are oracles (the image bytes and `fdtOf`).
- Vm.CpuFreqNoneIffUndetected: stated only below 4294967 MHz. Above that bound the plain `u32` multiply `mhz * 1000` at src/vm.rs:421 panics in a debug build and wraps at 32 bits in a release build. `Vm.CpuFreq` models the release build's wrap; the debug build's overflow panic is not modelled.
- Vm.DetectFreqFromSysinfo: the check that all CPUs report the same frequency only prints, so it is not modelled.
- Vm.DetectFreqFromSysinfo: requires at least one CPU and a first frequency below 2^32. The `first().unwrap()` panic at src/vm.rs:61 and the `try_into().unwrap()` panic at src/vm.rs:71 are not modelled.
- Vm.GenerateAddress: requires a non-empty random range. The source's `u64` subtraction for the upper bound is not modelled as wrapping.
- Hypercalls.Write: requires that a host write asked for a non-zero count never returns 0. Otherwise the source's loop would not terminate.
- Hypercalls.Write: requires that every address of the buffer translates, because the source unwraps `virt_to_phys`.
- Hypercalls.Read: requires both translations to succeed, because the source unwraps them.
- Hypercalls.OpenRequest: requires mapped host paths to contain no NUL, because `CString::new(...).unwrap()` would panic.
- Isolation.UhyveFileMap.AppendFileAndReturnCString: the host path is an `OsString` of arbitrary bytes in the source, and a `string` encoded as UTF-8 here. A host path that is not valid UTF-8 cannot be represented.
- Hypercalls.AddressToHypercall: the hypercall carries the parameter address rather than a reference into guest memory.
- Hypercalls.AddressToHypercall: requires that a known port is not `Unhandled`, so the `unimplemented!()` panic at src/hypercall.rs:72 is not modelled. The `get_ref_mut(..).unwrap()` panics at src/hypercall.rs:31-69, for a parameter address outside guest memory, are not modelled either.
- Hypercalls.CopyArgv: requires every destination to fit in guest memory, because `expect` panics otherwise. The table of argument addresses is a parameter rather than read from guest memory.
- Hypercalls.CopyEnv: requires `EnvFits`, so the `expect` panic at src/hypercall.rs:259-260, for an entry outside guest memory, is not modelled.
- Hypercalls.CopyEnv: the environment is one sequence with one address per entry. The source reads `vars_os()` twice, once to count and once to copy.
- Isolation.Resolve: ancestors are looked up by the text of the parsed path. The source uses the original spelling of each ancestor. The two agree for paths in normal form: no repeated or trailing `/` and no `.` component.
- Isolation.CachedTransparent: stated for lookups of paths in normal form.
- Isolation.SplitGuestAndHostPath: requires a ':' in the parameter, because the source's `unwrap` panics without one.
- Landlock.New: uses the same split as the file map. The fallible split its source imports from `crate::isolation` is not part of this model.
- Landlock.Pop: returns the parent in normal form. `PathBuf::pop` keeps the original spelling of the remaining prefix.
- Landlock.GetParentDirectory: requires the path or its parent to exist on the host. The source panics otherwise.
- `UhyvePageTable::create_gdt_entry` (src/paging.rs:133-139) is not modelled separately: it is the same expression as the free function `ArchPaging.CreateGdtEntry`.
- The temporary directory creation and the kernel file read in `UhyveVm::new` are I/O and are left out.
- Vm.UhyveVm.LoadKernelAsWritten: the re-read of the kernel file at src/vm.rs:361 is an oracle. `readOk` says whether it succeeds, and `elf` is the parse of what it read. The same holds for Vm.UhyveVm.LoadKernel.

## Findings

| source | as written | input that shows it | evidently intended | confidence | as-written member | corrected member |
|---|---|---|---|---|---|---|
| src/isolation.rs:116-127 | the cache inserts each intermediate path under a key relative to the mapped ancestor (`new_guest_path` starts empty) | files {"d" → "h", "x" → "k"}; looking up "d/x" stores "x" → "h/x", after which "x" resolves to "h/x" instead of "k" | insert each intermediate path under its full guest path, so a lookup never changes what any path resolves to | not executed; medium | Isolation.UhyveFileMap.GetHostPathAsWritten, Isolation.AsWrittenCacheShadowsMapping | Isolation.UhyveFileMap.GetHostPath, Isolation.CachedTransparent |
| src/hypercall.rs:231-239 | argument `i` is written to `arg_addrs[i]`, so argument 0 overwrites the kernel path and the last slot stays unwritten | path "k", argv ["a"], slots [0, 2] in 4 zero bytes: memory ends as [0x61, 0, 0, 0] | argument `i` goes to `arg_addrs[i + 1]`, after the kernel path in slot 0 | not executed; medium (the caller is not part of this model) | Hypercalls.CopyArgvAsWritten, Hypercalls.CopyArgvAsWrittenLosesPath | Hypercalls.CopyArgv, Hypercalls.ArgvReadBack |
| src/vm.rs:364-370 | the kernel's end address is compared with `memory_size - guest_address` | relocatable kernel of 0x60000 bytes at 0x99000 + 0x1000, guest memory of 0x100000 bytes at 0x99000: it ends at 0xFA000, below the slice bound 0x199000, but above 0x100000 - 0x99000 = 0x67000, so it is refused | compare with `guest_address + memory_size`, the bound of the slice the kernel is copied into | not executed; high | Vm.UhyveVm.LoadKernelAsWritten, Vm.KernelFitsAsWrittenRejectsFittingKernel, Vm.KernelFitsAsWrittenExactly | Vm.UhyveVm.LoadKernel, Vm.KernelFitsIsSliceBound |
