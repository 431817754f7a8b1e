/**
 * The layout decisions of `UhyveVm`: where the guest and the kernel are
 * placed, the ASLR address range, the command-line split at `--`, the
 * CPU-frequency fallback chain, the serial output sink and the loading of
 * the kernel, the device tree and the boot information.
 *
 * The ELF loader, the device-tree builder, the frequency probes, the
 * random-number generator and the host's stdout and files are function
 * parameters.
 */
module Vm {
  import opened Common
  import opened Consts
  import opened GuestMemory
  import Utf8

  // ---------------------------------------------------------------------
  // Command line
  // ---------------------------------------------------------------------

  /** The index of the first `--`, or the number of arguments when there is none. */
  function Separator(args: seq<string>): (sep: nat)
    ensures sep <= |args|
    ensures sep < |args| ==> args[sep] == "--"
    ensures forall i :: 0 <= i < sep ==> args[i] != "--"
  {
    if args == [] then 0
    else if args[0] == "--" then 0
    else 1 + Separator(args[1..])
  }

  /**
   * The kernel arguments (before the first `--`) and the application
   * arguments (after it; none when there is no `--`).
   */
  function SplitArgs(args: seq<string>): (seq<string>, seq<string>) {
    var sep := Separator(args);
    (args[..sep], if sep + 1 <= |args| then args[sep + 1..] else [])
  }

  /**
   * The kernel arguments hold no `--`. With a `--`, the arguments are the
   * kernel arguments, the separator and the application arguments; without
   * one, all arguments are kernel arguments.
   */
  lemma SplitArgsReassemble(args: seq<string>)
    ensures "--" !in SplitArgs(args).0
    ensures "--" in args ==> args == SplitArgs(args).0 + ["--"] + SplitArgs(args).1
    ensures "--" !in args ==> SplitArgs(args) == (args, [])
  {
    var sep := Separator(args);
    var (kernel, app) := SplitArgs(args);
    assert forall i :: 0 <= i < |kernel| ==> kernel[i] == args[i];
    if "--" in args {
      assert sep < |args|;
      assert args == args[..sep] + [args[sep]] + args[sep + 1..];
    } else {
      assert args[..sep] == args;
    }
  }

  // ---------------------------------------------------------------------
  // Guest address
  // ---------------------------------------------------------------------

  /** The upper end of the ASLR range, before the kernel's size and offset are taken off. */
  const ADDRESS_LIMIT: nat := 0x000F_FFFF_FFFF_0000
  /** The lower end of the ASLR range. */
  const ASLR_MIN: nat := 0x10_0000

  /** `x & 0x000F_FFFF_FFFF_0000`: bits 16 to 51 of `x`. */
  function MaskAddress(x: nat): nat {
    (x % 0x10_0000_0000_0000) / 0x1_0000 * 0x1_0000
  }

  /** Masking keeps a 64 KiB-aligned address at or below the input and at or above the 64 KiB multiples below it. */
  lemma MaskAddressBounds(x: nat)
    requires x < 0x10_0000_0000_0000
    ensures MaskAddress(x) % 0x1_0000 == 0
    ensures MaskAddress(x) <= x < MaskAddress(x) + 0x1_0000
  {
  }

  /** The exclusive upper end of the random pick. */
  function UpperBound(objectMemSize: nat, kernelOffset: nat): int {
    ADDRESS_LIMIT - objectMemSize - kernelOffset
  }

  /**
   * `generate_address`: without ASLR, the architecture's `RAM_START`; with
   * it, the random `pick` from `[0x100000, upper)` masked to 64 KiB
   * alignment. The range must not be empty, or the generator panics.
   */
  function GenerateAddress(aslr: bool, pick: nat, objectMemSize: nat, kernelOffset: nat, ramStart: nat): (r: nat)
    requires aslr ==> ASLR_MIN <= pick < UpperBound(objectMemSize, kernelOffset)
    ensures !aslr ==> r == ramStart
    ensures aslr ==> r % 0x1_0000 == 0 && ASLR_MIN <= r < UpperBound(objectMemSize, kernelOffset)
    ensures aslr ==> r + objectMemSize + kernelOffset < ADDRESS_LIMIT
  {
    if aslr then
      MaskAddressBounds(pick);
      MaskAddress(pick)
    else ramStart
  }

  // ---------------------------------------------------------------------
  // CPU frequency
  // ---------------------------------------------------------------------

  /** The first probe that succeeds, or 0 when none does. */
  function FirstSuccess(probes: seq<Option<u32>>): (mhz: u32)
    ensures mhz != 0 ==> exists i :: 0 <= i < |probes| && probes[i] == Some(mhz)
    ensures forall i :: 0 <= i < |probes| && probes[i].Some? && (forall j :: 0 <= j < i ==> probes[j].None?) ==>
              mhz == probes[i].value
    ensures (forall i :: 0 <= i < |probes| ==> probes[i].None?) ==> mhz == 0
  {
    if probes == [] then 0
    else if probes[0].Some? then probes[0].value
    else
      var rest := FirstSuccess(probes[1..]);
      assert forall i :: 1 <= i < |probes| ==> probes[1..][i - 1] == probes[i];
      rest
  }

  /**
   * `detect_cpu_freq`: sysinfo, then cpuid, then the hypervisor
   * information, then the OS; the first that succeeds wins, else 0.
   */
  function DetectCpuFreq(sysinfo: Option<u32>, cpuid: Option<u32>, hypervisorInfo: Option<u32>, os: Option<u32>): (mhz: u32)
    ensures mhz == FirstSuccess([sysinfo, cpuid, hypervisorInfo, os])
  {
    assert [os][1..] == [];
    assert FirstSuccess([os]) == os.GetOr(0);
    assert [hypervisorInfo, os][1..] == [os];
    assert FirstSuccess([hypervisorInfo, os]) == if hypervisorInfo.Some? then hypervisorInfo.value else os.GetOr(0);
    assert [cpuid, hypervisorInfo, os][1..] == [hypervisorInfo, os];
    assert FirstSuccess([cpuid, hypervisorInfo, os]) == if cpuid.Some? then cpuid.value else FirstSuccess([hypervisorInfo, os]);
    assert [sysinfo, cpuid, hypervisorInfo, os][1..] == [cpuid, hypervisorInfo, os];
    match sysinfo
    case Some(f) => f
    case None =>
      match cpuid
      case Some(f) => f
      case None =>
        match hypervisorInfo
        case Some(f) => f
        case None => os.GetOr(0)
  }

  /**
   * `detect_freq_from_sysinfo`: the first CPU's frequency is authoritative;
   * 0 is a failure. The source panics without a CPU and when the value does
   * not fit in 32 bits.
   */
  function DetectFreqFromSysinfo(frequencies: seq<nat>): (r: Option<u32>)
    requires |frequencies| >= 1 && frequencies[0] < 0x1_0000_0000
    ensures r.Some? <==> frequencies[0] > 0
    ensures r.Some? ==> r.value == frequencies[0]
  {
    if frequencies[0] > 0 then Some(frequencies[0]) else None
  }

  /**
   * The boot information's `cpu_freq`: `NonZeroU32::new(mhz * 1000)`, the
   * product wrapping at 32 bits.
   */
  function CpuFreq(mhz: u32): Option<u32> {
    var khz := (mhz * 1000) % 0x1_0000_0000;
    if khz == 0 then None else Some(khz)
  }

  /** For frequencies below 4.29 THz, the boot information has no frequency exactly when detection failed. */
  lemma CpuFreqNoneIffUndetected(mhz: u32)
    requires mhz * 1000 < 0x1_0000_0000
    ensures CpuFreq(mhz).None? <==> mhz == 0
    ensures mhz != 0 ==> CpuFreq(mhz) == Some(mhz * 1000)
  {
  }

  // ---------------------------------------------------------------------
  // The VM
  // ---------------------------------------------------------------------

  /** Where serial output goes (`Output`); `NoOutput` discards it. */
  datatype Output = StdIo | File | Buffer | NoOutput

  /** The outcome of `serial_output`. */
  datatype SerialResult = SerialOk | InvalidData | IoError

  /** A parsed kernel: its fixed start address if any, its size in memory, its loaded image and its entry point. */
  datatype KernelObject = KernelObject(startAddr: Option<nat>, memSize: nat, image: seq<u8>, entryPoint: nat)

  datatype LoadKernelError = Io | ParseKernelError | InsufficientMemory

  datatype LoadKernelResult = Loaded | Failed(error: LoadKernelError)

  /** The boot information handed to the kernel. */
  datatype BootInfo = BootInfo(physStart: nat, physEnd: nat, serialPortBase: nat, deviceTree: nat,
                               numCpus: nat, cpuFreq: Option<u32>)

  /** The guest address of a relocatable kernel's memory. */
  const RELOCATED_GUEST_ADDRESS: nat := 0x99000

  /**
   * The check `load_kernel` performs: the kernel's end address is at most
   * the memory size minus the guest address.
   */
  predicate KernelFitsAsWritten(kernelAddress: nat, memSize: nat, memorySize: nat, guestAddress: nat) {
    kernelAddress + memSize <= memorySize - guestAddress
  }

  /** The kernel ends inside the guest memory `[guestAddress, guestAddress + memorySize)`. */
  predicate KernelFits(kernelAddress: nat, memSize: nat, memorySize: nat, guestAddress: nat) {
    kernelAddress + memSize <= guestAddress + memorySize
  }

  /**
   * The check as written subtracts the guest address instead of adding
   * it. A relocatable kernel of 0x60000 bytes at offset 0x1000, in 1 MiB
   * of guest memory at 0x99000, is rejected although it fits. The
   * subtraction does not wrap here, and the memory is above the minimum size.
   */
  lemma KernelFitsAsWrittenRejectsFittingKernel()
    ensures RELOCATED_GUEST_ADDRESS <= 0x10_0000 && MIN_PHYSMEM_SIZE <= 0x10_0000
    ensures KernelFits(RELOCATED_GUEST_ADDRESS + 0x1000, 0x6_0000, 0x10_0000, RELOCATED_GUEST_ADDRESS)
    ensures !KernelFitsAsWritten(RELOCATED_GUEST_ADDRESS + 0x1000, 0x6_0000, 0x10_0000, RELOCATED_GUEST_ADDRESS)
  {
  }

  /**
   * Wherever the subtraction does not wrap, the check as written accepts
   * exactly the kernels whose end lies a further `guestAddress` bytes
   * below the end of guest memory. It is stricter than `KernelFits` by
   * twice the guest address.
   */
  lemma KernelFitsAsWrittenExactly(kernelAddress: nat, memSize: nat, memorySize: nat, guestAddress: nat)
    requires guestAddress <= memorySize
    ensures KernelFitsAsWritten(kernelAddress, memSize, memorySize, guestAddress)
            <==> kernelAddress + memSize + guestAddress <= memorySize
    ensures KernelFits(kernelAddress, memSize, memorySize, guestAddress)
            && !KernelFitsAsWritten(kernelAddress, memSize, memorySize, guestAddress)
            <==> memorySize - guestAddress < kernelAddress + memSize <= memorySize + guestAddress
  {
  }

  /**
   * With the kernel at `kernelOffset` above the guest address, the
   * corrected check is exactly the bound of the slice the kernel is loaded
   * into, `[kernelOffset, kernelOffset + memSize)` of guest memory.
   */
  lemma KernelFitsIsSliceBound(guestAddress: nat, kernelOffset: nat, memSize: nat, memorySize: nat)
    ensures KernelFits(guestAddress + kernelOffset, memSize, memorySize, guestAddress)
            <==> kernelOffset + memSize <= memorySize
  {
  }

  /** The check as written implies the corrected one: it never lets a kernel through that does not fit. */
  lemma KernelFitsAsWrittenIsStricter(kernelAddress: nat, memSize: nat, memorySize: nat, guestAddress: nat)
    requires guestAddress <= memorySize
    requires KernelFitsAsWritten(kernelAddress, memSize, memorySize, guestAddress)
    ensures KernelFits(kernelAddress, memSize, memorySize, guestAddress)
  {
  }

  class UhyveVm {
    /** The guest-physical address the kernel image starts at. */
    const kernelAddress: nat
    /** The guest-physical address of the first byte of guest memory. */
    const guestAddress: nat
    const memorySize: nat
    const cpuCount: nat
    const gdbPort: Option<u16>
    const args: seq<string>
    const output: Output
    /** The offset of the kernel in guest memory (`KERNEL_OFFSET`). */
    const kernelOffset: nat
    /** Guest memory, from `guestAddress` on. */
    const mem: array<u8>
    var entryPoint: nat
    var stackAddress: nat
    var bootInfo: Option<BootInfo>
    /** The text collected by an `Output::Buffer`. */
    var buffer: string
    /** The bytes written to stdout or to the output file. */
    var hostOutput: seq<u8>

    predicate Valid()
      reads this
    {
      mem.Length == memorySize && memorySize >= MIN_PHYSMEM_SIZE
      && cpuCount >= 1 && (gdbPort.None? || cpuCount == 1)
    }

    /**
     * `UhyveVm::new`: a kernel with a fixed start address is placed there
     * with guest memory at `ramStart`; a relocatable one goes
     * `kernelOffset` above guest memory at 0x99000 (the generated address
     * is not used). A gdb port is accepted with one CPU only.
     */
    constructor (elf: KernelObject, memorySize: nat, cpuCount: nat, gdbPort: Option<u16>,
                 args: seq<string>, output: Output, ramStart: nat, kernelOffset: nat)
      requires memorySize >= MIN_PHYSMEM_SIZE && cpuCount >= 1
      requires gdbPort.None? || cpuCount == 1
      ensures Valid()
      ensures elf.startAddr.Some? ==> kernelAddress == elf.startAddr.value && guestAddress == ramStart
      ensures elf.startAddr.None? ==>
                guestAddress == RELOCATED_GUEST_ADDRESS && kernelAddress == guestAddress + kernelOffset
      ensures this.memorySize == memorySize && this.cpuCount == cpuCount && this.gdbPort == gdbPort
      ensures this.args == args && this.output == output && this.kernelOffset == kernelOffset
      ensures fresh(mem) && forall k :: 0 <= k < mem.Length ==> mem[k] == 0
      ensures entryPoint == 0 && stackAddress == 0 && bootInfo.None? && buffer == [] && hostOutput == []
    {
      if elf.startAddr.Some? {
        guestAddress := ramStart;
        kernelAddress := elf.startAddr.value;
      } else {
        guestAddress := RELOCATED_GUEST_ADDRESS;
        kernelAddress := RELOCATED_GUEST_ADDRESS + kernelOffset;
      }
      this.memorySize := memorySize;
      this.cpuCount := cpuCount;
      this.gdbPort := gdbPort;
      this.args := args;
      this.output := output;
      this.kernelOffset := kernelOffset;
      mem := new u8[memorySize](_ => 0);
      entryPoint := 0;
      stackAddress := 0;
      bootInfo := None;
      buffer := [];
      hostOutput := [];
    }

    /** `num_cpus`: the configured CPU count, which is 1 whenever a gdb port is set. */
    function NumCpus(): (n: nat)
      reads this
      requires Valid()
      ensures n == cpuCount && n >= 1
      ensures gdbPort.Some? ==> n == 1
    {
      cpuCount
    }

    /**
     * `serial_output`: discarded without output; appended to the buffer
     * when it is UTF-8, and refused with `InvalidData` otherwise; written
     * to stdout or the file as it is. The host sink takes the first
     * `accepted` bytes; when that is fewer than `buf` holds, `write_all`
     * fails with an I/O error after writing them. A buffer's bytes are
     * always the output accepted so far.
     */
    method SerialOutput(buf: seq<u8>, accepted: nat) returns (r: SerialResult)
      modifies this`buffer, this`hostOutput
      ensures output.NoOutput? ==> r == SerialOk && buffer == old(buffer) && hostOutput == old(hostOutput)
      ensures output.Buffer? && Utf8.Decode(buf).Some? ==>
                r == SerialOk && buffer == old(buffer) + Utf8.Decode(buf).value && hostOutput == old(hostOutput)
      ensures output.Buffer? && Utf8.Decode(buf).None? ==>
                r == InvalidData && buffer == old(buffer) && hostOutput == old(hostOutput)
      ensures output.Buffer? && r == SerialOk ==> Utf8.Encode(buffer) == Utf8.Encode(old(buffer)) + buf
      ensures (output.StdIo? || output.File?) && |buf| <= accepted ==>
                r == SerialOk && hostOutput == old(hostOutput) + buf && buffer == old(buffer)
      ensures (output.StdIo? || output.File?) && accepted < |buf| ==>
                r == IoError && hostOutput == old(hostOutput) + buf[..accepted] && buffer == old(buffer)
      ensures r == IoError <==> (output.StdIo? || output.File?) && accepted < |buf|
    {
      match output
      case NoOutput =>
        r := SerialOk;
      case Buffer =>
        match Utf8.Decode(buf) {
          case None =>
            r := InvalidData;
          case Some(text) =>
            Utf8.EncodeAppend(buffer, text);
            Utf8.EncodeDecode(buf);
            buffer := buffer + text;
            r := SerialOk;
        }
      case _ =>
        if accepted < |buf| {
          hostOutput := hostOutput + buf[..accepted];
          r := IoError;
        } else {
          hostOutput := hostOutput + buf;
          r := SerialOk;
        }
    }

    /** The device tree for the command line, and the memory range it describes. */
    function Fdt(fdtOf: (nat, nat, seq<string>, seq<string>) -> seq<u8>): seq<u8>
      reads this
    {
      var (kernelArgs, appArgs) := SplitArgs(args);
      fdtOf(guestAddress, guestAddress + memorySize, kernelArgs, appArgs)
    }

    /** The guest memory after loading: the kernel image at `kernelOffset`, then the device tree at `FDT_OFFSET`. */
    function LoadedMemory(m: seq<u8>, elf: KernelObject, fdt: seq<u8>): seq<u8>
      requires kernelOffset + |elf.image| <= |m| && FDT_OFFSET + |fdt| <= |m|
    {
      Splice(Splice(m, kernelOffset, elf.image), FDT_OFFSET, fdt)
    }

    /** What `load_kernel` requires of a kernel that passes its check (slice bounds and asserts). */
    predicate Loadable(elf: KernelObject, fdt: seq<u8>)
      reads this
    {
      |elf.image| == elf.memSize
      && kernelOffset + elf.memSize <= memorySize
      && |fdt| < BOOT_INFO_OFFSET - FDT_OFFSET
      && kernelAddress > KERNEL_STACK_SIZE
    }

    /**
     * `load_kernel` as written: the kernel file is read again (`readOk`
     * says whether that read succeeds) and parsed into `elf`. A failed
     * read, a parse failure and a failed size check change nothing. Otherwise the image goes to `kernelOffset` and the
     * device tree to `FDT_OFFSET`. The entry point and the boot information
     * are set, and the boot stack ends at the kernel's start.
     */
    method LoadKernelAsWritten(elf: Option<KernelObject>, fdtOf: (nat, nat, seq<string>, seq<string>) -> seq<u8>,
                               uartPort: nat, mhz: u32, readOk: bool) returns (r: LoadKernelResult)
      requires Valid() && guestAddress <= memorySize
      requires readOk && elf.Some? && KernelFitsAsWritten(kernelAddress, elf.value.memSize, memorySize, guestAddress) ==>
                 Loadable(elf.value, Fdt(fdtOf))
      modifies this`entryPoint, this`stackAddress, this`bootInfo, mem
      ensures r == Failed(Io) <==> !readOk
      ensures readOk && elf.None? ==> r == Failed(ParseKernelError)
      ensures readOk && elf.Some? && !KernelFitsAsWritten(kernelAddress, elf.value.memSize, memorySize, guestAddress) ==>
                r == Failed(InsufficientMemory)
      ensures r.Failed? ==> mem[..] == old(mem[..]) && entryPoint == old(entryPoint)
                            && stackAddress == old(stackAddress) && bootInfo == old(bootInfo)
      ensures r.Loaded? ==> readOk && elf.Some? && KernelFitsAsWritten(kernelAddress, elf.value.memSize, memorySize, guestAddress)
      ensures r.Loaded? ==> LoadedState(old(mem[..]), elf.value, fdtOf, uartPort, mhz)
    {
      if !readOk {
        return Failed(Io);
      }
      if elf.None? {
        return Failed(ParseKernelError);
      }
      if !KernelFitsAsWritten(kernelAddress, elf.value.memSize, memorySize, guestAddress) {
        return Failed(InsufficientMemory);
      }
      LoadChecked(elf.value, fdtOf, uartPort, mhz);
      r := Loaded;
    }

    /** `load_kernel` with the corrected size check. */
    method LoadKernel(elf: Option<KernelObject>, fdtOf: (nat, nat, seq<string>, seq<string>) -> seq<u8>,
                      uartPort: nat, mhz: u32, readOk: bool) returns (r: LoadKernelResult)
      requires Valid()
      requires readOk && elf.Some? && KernelFits(kernelAddress, elf.value.memSize, memorySize, guestAddress) ==>
                 Loadable(elf.value, Fdt(fdtOf))
      modifies this`entryPoint, this`stackAddress, this`bootInfo, mem
      ensures r == Failed(Io) <==> !readOk
      ensures readOk && elf.None? ==> r == Failed(ParseKernelError)
      ensures readOk && elf.Some? && !KernelFits(kernelAddress, elf.value.memSize, memorySize, guestAddress) ==>
                r == Failed(InsufficientMemory)
      ensures r.Failed? ==> mem[..] == old(mem[..]) && entryPoint == old(entryPoint)
                            && stackAddress == old(stackAddress) && bootInfo == old(bootInfo)
      ensures r.Loaded? ==> readOk && elf.Some? && KernelFits(kernelAddress, elf.value.memSize, memorySize, guestAddress)
      ensures r.Loaded? ==> LoadedState(old(mem[..]), elf.value, fdtOf, uartPort, mhz)
    {
      if !readOk {
        return Failed(Io);
      }
      if elf.None? {
        return Failed(ParseKernelError);
      }
      if !KernelFits(kernelAddress, elf.value.memSize, memorySize, guestAddress) {
        return Failed(InsufficientMemory);
      }
      LoadChecked(elf.value, fdtOf, uartPort, mhz);
      r := Loaded;
    }

    /** The state after a successful load, from the memory `m` before it. */
    predicate LoadedState(m: seq<u8>, elf: KernelObject, fdtOf: (nat, nat, seq<string>, seq<string>) -> seq<u8>,
                          uartPort: nat, mhz: u32)
      reads this, mem
      requires Valid()
    {
      var fdt := Fdt(fdtOf);
      |m| == memorySize && Loadable(elf, fdt)
      && mem[..] == LoadedMemory(m, elf, fdt)
      && entryPoint == elf.entryPoint
      && bootInfo == Some(BootInfo(guestAddress, guestAddress + memorySize, uartPort, FDT_OFFSET,
                                   cpuCount, CpuFreq(mhz)))
      && stackAddress + KERNEL_STACK_SIZE == kernelAddress
    }

    /** The part of `load_kernel` after its size check. */
    method LoadChecked(elf: KernelObject, fdtOf: (nat, nat, seq<string>, seq<string>) -> seq<u8>,
                       uartPort: nat, mhz: u32)
      requires Valid() && Loadable(elf, Fdt(fdtOf))
      modifies this`entryPoint, this`stackAddress, this`bootInfo, mem
      ensures LoadedState(old(mem[..]), elf, fdtOf, uartPort, mhz)
    {
      CopyFromSlice(mem, kernelOffset, elf.image);
      entryPoint := elf.entryPoint;
      var (kernelArgs, appArgs) := SplitArgs(args);
      var fdt := fdtOf(guestAddress, guestAddress + memorySize, kernelArgs, appArgs);
      CopyFromSlice(mem, FDT_OFFSET, fdt);
      bootInfo := Some(BootInfo(guestAddress, guestAddress + memorySize, uartPort, FDT_OFFSET,
                                NumCpus(), CpuFreq(mhz)));
      stackAddress := kernelAddress - KERNEL_STACK_SIZE;
    }
  }
}
