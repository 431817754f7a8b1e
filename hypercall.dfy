/**
 * The host side of uhyve's hypercalls. A port write is decoded into a
 * hypercall. Handlers serve open, read, write, close and lseek against the
 * host, and the command line and the environment are copied into guest
 * memory as C strings.
 *
 * The host's system calls and the translation of guest addresses are
 * function parameters.
 *
 * Where a handler here indexes the guest-memory array `mem` (opening a
 * path, copying argv and the environment), its guest addresses are
 * already offsets into guest memory. The source's `host_address` and
 * `slice_at_mut` subtract the guest's base address and check the bounds
 * first. Here those bounds are preconditions, such as `ArgvFits` and
 * `EnvFits`, or a `Terminated` string within `mem`.
 */
module Hypercalls {
  import opened Common
  import opened GuestMemory
  import Utf8

  // ---------------------------------------------------------------------
  // Dispatch
  // ---------------------------------------------------------------------

  /**
   * The hypercall ports (`HypercallAddress`). `Unhandled` stands for every
   * known port the dispatcher has no arm for.
   */
  datatype HypercallAddress =
    | FileClose | FileLseek | FileOpen | FileRead | FileWrite | FileUnlink
    | Exit | Cmdsize | Cmdval | Uart | SerialBufferWrite | Unhandled

  /**
   * A decoded hypercall. Each one carries the guest-physical address of its
   * parameter block, except for the byte written to the UART.
   */
  datatype Hypercall =
    | FileClose(params: u64) | FileLseek(params: u64) | FileOpen(params: u64)
    | FileRead(params: u64) | FileWrite(params: u64) | FileUnlink(params: u64)
    | Exit(params: u64) | Cmdsize(params: u64) | Cmdval(params: u64)
    | SerialWriteByte(byte: u8) | SerialWriteBuffer(params: u64)

  /** The port a hypercall arrives on. */
  function PortOf(h: Hypercall): HypercallAddress {
    match h
    case FileClose(_) => HypercallAddress.FileClose
    case FileLseek(_) => HypercallAddress.FileLseek
    case FileOpen(_) => HypercallAddress.FileOpen
    case FileRead(_) => HypercallAddress.FileRead
    case FileWrite(_) => HypercallAddress.FileWrite
    case FileUnlink(_) => HypercallAddress.FileUnlink
    case Exit(_) => HypercallAddress.Exit
    case Cmdsize(_) => HypercallAddress.Cmdsize
    case Cmdval(_) => HypercallAddress.Cmdval
    case SerialWriteByte(_) => HypercallAddress.Uart
    case SerialWriteBuffer(_) => HypercallAddress.SerialBufferWrite
  }

  /**
   * `address_to_hypercall`: `ports` is `HypercallAddress::try_from`. An
   * unknown port yields no hypercall. The UART port yields the low byte of
   * `data`, and every other port yields the hypercall whose parameter
   * block is at `data`. A known port without an arm panics.
   */
  function AddressToHypercall(ports: map<u16, HypercallAddress>, addr: u16, data: u64): (r: Option<Hypercall>)
    requires addr in ports ==> ports[addr] != HypercallAddress.Unhandled
    ensures r.None? <==> addr !in ports
    ensures r.Some? ==> PortOf(r.value) == ports[addr]
    ensures r.Some? && r.value.SerialWriteByte? ==> r.value.byte as int == data % 0x100
    ensures r.Some? && !r.value.SerialWriteByte? ==> r.value.params == data
  {
    if addr !in ports then None
    else
      Some(match ports[addr]
        case FileClose => Hypercall.FileClose(data)
        case FileLseek => Hypercall.FileLseek(data)
        case FileOpen => Hypercall.FileOpen(data)
        case FileRead => Hypercall.FileRead(data)
        case FileWrite => Hypercall.FileWrite(data)
        case FileUnlink => Hypercall.FileUnlink(data)
        case Exit => Hypercall.Exit(data)
        case Cmdsize => Hypercall.Cmdsize(data)
        case Cmdval => Hypercall.Cmdval(data)
        case Uart => SerialWriteByte((data % 0x100) as u8)
        case SerialBufferWrite => SerialWriteBuffer(data))
  }

  // ---------------------------------------------------------------------
  // open, read, close, lseek
  // ---------------------------------------------------------------------

  datatype OpenParams = OpenParams(name: u64, flags: int, mode: int, ret: int)

  /** The guest path named by the C string at `name`, when it is UTF-8. */
  function GuestPathAt(mem: seq<u8>, name: nat): Option<string>
    requires Terminated(mem, name)
  {
    Utf8.Decode(CStr(mem, name))
  }

  /**
   * The host path of a whitelisted guest path holds no NUL: `CString::new`
   * would panic on it.
   */
  predicate NulFreeTarget(files: map<string, string>, guest: Option<string>) {
    guest.Some? && guest.value in files ==> '\0' !in files[guest.value]
  }

  /**
   * The path `open` hands to the host's `open`, or `None` when the request
   * is rejected. With a file map, only the host path of a whitelisted
   * UTF-8 guest path is opened. Without one, the guest's bytes go to the
   * host unchanged.
   */
  function OpenRequest(mem: seq<u8>, name: nat, fileMap: Option<map<string, string>>): (req: Option<seq<u8>>)
    requires Terminated(mem, name)
    requires fileMap.Some? ==> NulFreeTarget(fileMap.value, GuestPathAt(mem, name))
    ensures fileMap.None? ==> req == Some(CStr(mem, name))
    ensures fileMap.Some? ==>
              (req.Some? <==> GuestPathAt(mem, name).Some? && GuestPathAt(mem, name).value in fileMap.value)
    ensures fileMap.Some? && req.Some? ==>
              Utf8.Decode(req.value) == Some(fileMap.value[GuestPathAt(mem, name).value])
    ensures req.Some? ==> forall k :: 0 <= k < |req.value| ==> req.value[k] != 0
  {
    match fileMap
    case None => Some(CStr(mem, name))
    case Some(files) =>
      match GuestPathAt(mem, name)
      case None => None
      case Some(guest) =>
        if guest in files then
          var host := files[guest];
          Utf8.DecodeEncode(host);
          Utf8.EncodeNoNul(host);
          Some(Utf8.Encode(host))
        else None
  }

  /**
   * `open`: `ret` is the host's result on the requested path, or -1 when
   * the request is rejected; nothing else in the block changes.
   */
  function Open(mem: seq<u8>, p: OpenParams, fileMap: Option<map<string, string>>,
                hostOpen: (seq<u8>, int, int) -> int): (r: OpenParams)
    requires Terminated(mem, p.name)
    requires fileMap.Some? ==> NulFreeTarget(fileMap.value, GuestPathAt(mem, p.name))
    ensures r.name == p.name && r.flags == p.flags && r.mode == p.mode
    ensures OpenRequest(mem, p.name, fileMap).None? ==> r.ret == -1
    ensures OpenRequest(mem, p.name, fileMap).Some? ==>
              r.ret == hostOpen(OpenRequest(mem, p.name, fileMap).value, p.flags, p.mode)
  {
    match OpenRequest(mem, p.name, fileMap)
    case None => p.(ret := -1)
    case Some(path) => p.(ret := hostOpen(path, p.flags, p.mode))
  }

  /** A guest path outside the whitelist, or not UTF-8, is refused with -1 and never reaches the host. */
  lemma OpenRejects(mem: seq<u8>, p: OpenParams, files: map<string, string>, hostOpen: (seq<u8>, int, int) -> int)
    requires Terminated(mem, p.name)
    requires NulFreeTarget(files, GuestPathAt(mem, p.name))
    requires GuestPathAt(mem, p.name).None? || GuestPathAt(mem, p.name).value !in files
    ensures OpenRequest(mem, p.name, Some(files)).None?
    ensures Open(mem, p, Some(files), hostOpen).ret == -1
  {
  }

  datatype ReadParams = ReadParams(fd: int, buf: u64, len: nat, ret: int)

  /**
   * `read`: `buf` is translated to a host address (both translations
   * unwrap). `ret` is the host's byte count when that is not negative,
   * and -1 otherwise.
   */
  function Read(p: ReadParams, virtToPhys: nat -> Option<nat>, hostAddress: nat -> Option<nat>,
                hostRead: (int, nat, nat) -> int): (r: ReadParams)
    requires virtToPhys(p.buf).Some? && hostAddress(virtToPhys(p.buf).value).Some?
    ensures r.fd == p.fd && r.buf == p.buf && r.len == p.len
    ensures r.ret >= -1
    ensures var n := hostRead(p.fd, hostAddress(virtToPhys(p.buf).value).value, p.len);
            (n >= 0 ==> r.ret == n) && (n < 0 ==> r.ret == -1)
  {
    var bytesRead := hostRead(p.fd, hostAddress(virtToPhys(p.buf).value).value, p.len);
    if bytesRead >= 0 then p.(ret := bytesRead) else p.(ret := -1)
  }

  datatype CloseParams = CloseParams(fd: int, ret: int)

  /** `close`: `ret` is the host's result for the descriptor, which stays. */
  function Close(p: CloseParams, hostClose: int -> int): (r: CloseParams)
    ensures r.fd == p.fd && r.ret == hostClose(p.fd)
  {
    p.(ret := hostClose(p.fd))
  }

  datatype LseekParams = LseekParams(fd: int, offset: int, whence: int)

  /** `lseek`: `offset` becomes the host's new offset; descriptor and whence stay. */
  function Lseek(p: LseekParams, hostLseek: (int, int, int) -> int): (r: LseekParams)
    ensures r.fd == p.fd && r.whence == p.whence
    ensures r.offset == hostLseek(p.fd, p.offset, p.whence)
  {
    p.(offset := hostLseek(p.fd, p.offset, p.whence))
  }

  // ---------------------------------------------------------------------
  // write
  // ---------------------------------------------------------------------

  datatype WriteParams = WriteParams(fd: int, buf: u64, len: nat)

  /** The outcome of `write` (`io::Result<()>`). */
  datatype IoResult = Ok | AddrNotAvailable | OsError

  /**
   * One call of the host's `write`: the guest address it starts at, the
   * number of bytes asked for, and what the host returned.
   */
  datatype WriteStep = WriteStep(addr: nat, count: nat, result: int)

  /**
   * The host's `write`, for its `k`-th call, never reports more bytes than
   * asked for, and reports progress or an error when asked for some.
   */
  ghost predicate HostWriteSane(hostWrite: (nat, int, nat, nat) -> int) {
    forall k, fd, a, c :: 0 < c ==> hostWrite(k, fd, a, c) != 0 && hostWrite(k, fd, a, c) <= c
  }

  /** Every guest address of the buffer translates (`virt_to_phys` unwraps). */
  ghost predicate Translatable(p: WriteParams, virtToPhys: nat -> Option<nat>) {
    forall a :: p.buf <= a < p.buf + p.len ==> virtToPhys(a).Some?
  }

  /**
   * The loop of `write` from `written` bytes on, as the `k`-th host call:
   * its outcome and the host calls it makes.
   */
  function WriteFrom(p: WriteParams, written: nat, k: nat, virtToPhys: nat -> Option<nat>,
                     hostAddress: nat -> Option<nat>, hostWrite: (nat, int, nat, nat) -> int): (IoResult, seq<WriteStep>)
    requires written <= p.len
    requires Translatable(p, virtToPhys) && HostWriteSane(hostWrite)
    decreases p.len - written
  {
    if written == p.len then (Ok, [])
    else
      var addr := p.buf + written;
      match hostAddress(virtToPhys(addr).value)
      case None => (AddrNotAvailable, [])
      case Some(h) =>
        var step := hostWrite(k, p.fd, h, p.len - written);
        var call := WriteStep(addr, p.len - written, step);
        if step >= 0 then
          var rest := WriteFrom(p, written + step, k + 1, virtToPhys, hostAddress, hostWrite);
          (rest.0, [call] + rest.1)
        else (OsError, [call])
  }

  /** The loop state of `write`: `steps` made so far and the rest still to come give the whole run. */
  ghost predicate WriteLoop(p: WriteParams, written: nat, k: nat, steps: seq<WriteStep>, virtToPhys: nat -> Option<nat>,
                            hostAddress: nat -> Option<nat>, hostWrite: (nat, int, nat, nat) -> int)
    requires Translatable(p, virtToPhys) && HostWriteSane(hostWrite)
  {
    written <= p.len
    && var rest := WriteFrom(p, written, k, virtToPhys, hostAddress, hostWrite);
       WriteFrom(p, 0, 0, virtToPhys, hostAddress, hostWrite) == (rest.0, steps + rest.1)
  }

  /** One host call that made progress moves the loop state on. */
  lemma WriteLoopStep(p: WriteParams, written: nat, k: nat, steps: seq<WriteStep>, virtToPhys: nat -> Option<nat>,
                      hostAddress: nat -> Option<nat>, hostWrite: (nat, int, nat, nat) -> int, h: nat, step: int)
    requires Translatable(p, virtToPhys) && HostWriteSane(hostWrite)
    requires WriteLoop(p, written, k, steps, virtToPhys, hostAddress, hostWrite) && written < p.len
    requires hostAddress(virtToPhys(p.buf + written).value) == Some(h)
    requires step == hostWrite(k, p.fd, h, p.len - written) && step >= 0
    ensures written + step <= p.len
    ensures WriteLoop(p, written + step, k + 1, steps + [WriteStep(p.buf + written, p.len - written, step)],
                      virtToPhys, hostAddress, hostWrite)
  {
    var call := WriteStep(p.buf + written, p.len - written, step);
    var rest := WriteFrom(p, written + step, k + 1, virtToPhys, hostAddress, hostWrite);
    assert WriteFrom(p, written, k, virtToPhys, hostAddress, hostWrite) == (rest.0, [call] + rest.1);
    assert steps + ([call] + rest.1) == (steps + [call]) + rest.1;
  }

  /**
   * `write`: calls the host's `write` until the whole buffer is written,
   * each time for the rest of the buffer. A negative step is an OS error,
   * and an untranslatable host address is `AddrNotAvailable`.
   */
  method Write(p: WriteParams, virtToPhys: nat -> Option<nat>, hostAddress: nat -> Option<nat>,
               hostWrite: (nat, int, nat, nat) -> int) returns (res: IoResult, steps: seq<WriteStep>)
    requires Translatable(p, virtToPhys) && HostWriteSane(hostWrite)
    ensures (res, steps) == WriteFrom(p, 0, 0, virtToPhys, hostAddress, hostWrite)
  {
    var bytesWritten: nat := 0;
    var k: nat := 0;
    steps := [];
    assert steps + WriteFrom(p, 0, 0, virtToPhys, hostAddress, hostWrite).1
        == WriteFrom(p, 0, 0, virtToPhys, hostAddress, hostWrite).1;
    while bytesWritten != p.len
      invariant WriteLoop(p, bytesWritten, k, steps, virtToPhys, hostAddress, hostWrite)
      decreases p.len - bytesWritten
    {
      var addr := p.buf + bytesWritten;
      var h := hostAddress(virtToPhys(addr).value);
      if h.None? {
        assert steps + [] == steps;
        return AddrNotAvailable, steps;
      }
      var step := hostWrite(k, p.fd, h.value, p.len - bytesWritten);
      var call := WriteStep(addr, p.len - bytesWritten, step);
      if step >= 0 {
        WriteLoopStep(p, bytesWritten, k, steps, virtToPhys, hostAddress, hostWrite, h.value, step);
        steps := steps + [call];
        bytesWritten := bytesWritten + step;
        k := k + 1;
      } else {
        steps := steps + [call];
        return OsError, steps;
      }
    }
    assert steps + [] == steps;
    res := Ok;
  }

  /**
   * The host calls of `write` tile the buffer: the first starts at the
   * buffer, each asks for the rest of it, and each starts where the
   * previous one stopped.
   */
  lemma {:induction false} WriteStepsTile(p: WriteParams, written: nat, k: nat, virtToPhys: nat -> Option<nat>,
                                          hostAddress: nat -> Option<nat>, hostWrite: (nat, int, nat, nat) -> int)
    requires written <= p.len
    requires Translatable(p, virtToPhys) && HostWriteSane(hostWrite)
    ensures var steps := WriteFrom(p, written, k, virtToPhys, hostAddress, hostWrite).1;
            (|steps| > 0 ==> steps[0].addr == p.buf + written)
            && (forall i :: 0 <= i < |steps| ==> 0 < steps[i].count && steps[i].addr + steps[i].count == p.buf + p.len)
            && (forall i :: 0 <= i < |steps| - 1 ==> 0 < steps[i].result && steps[i + 1].addr == steps[i].addr + steps[i].result)
    decreases p.len - written
  {
    if written < p.len {
      var addr := p.buf + written;
      var h := hostAddress(virtToPhys(addr).value);
      if h.Some? {
        var step := hostWrite(k, p.fd, h.value, p.len - written);
        if step >= 0 {
          WriteStepsTile(p, written + step, k + 1, virtToPhys, hostAddress, hostWrite);
        }
      }
    }
  }

  /**
   * How `write` ends: `Ok` only once the calls have covered the whole
   * buffer, `OsError` only on a negative host result, and a zero-length
   * buffer makes no host call.
   */
  lemma {:induction false} WriteOutcome(p: WriteParams, written: nat, k: nat, virtToPhys: nat -> Option<nat>,
                                        hostAddress: nat -> Option<nat>, hostWrite: (nat, int, nat, nat) -> int)
    requires written <= p.len
    requires Translatable(p, virtToPhys) && HostWriteSane(hostWrite)
    ensures var (res, steps) := WriteFrom(p, written, k, virtToPhys, hostAddress, hostWrite);
            (written == p.len ==> res == Ok && steps == [])
            && (res == Ok && steps != [] ==> steps[|steps| - 1].addr + steps[|steps| - 1].result == p.buf + p.len)
            && (res == OsError ==> steps != [] && steps[|steps| - 1].result < 0)
    decreases p.len - written
  {
    if written < p.len {
      var addr := p.buf + written;
      var h := hostAddress(virtToPhys(addr).value);
      if h.Some? {
        var step := hostWrite(k, p.fd, h.value, p.len - written);
        if step >= 0 {
          WriteOutcome(p, written + step, k + 1, virtToPhys, hostAddress, hostWrite);
        }
      }
    }
  }

  // ---------------------------------------------------------------------
  // Command line and environment
  // ---------------------------------------------------------------------

  /**
   * The stores of the command line: the kernel path and a 0 at
   * `argAddrs[0]`, and argument `i` and a 0 at `argAddrs[first + i]`.
   */
  function ArgvStores(path: seq<u8>, argv: seq<string>, argAddrs: seq<nat>, first: nat): (stores: seq<Store>)
    requires first + |argv| <= |argAddrs| && |argAddrs| >= 1
    ensures |stores| == |argv| + 1
    ensures stores[0] == Store(argAddrs[0], path + [0])
    ensures forall i :: 0 <= i < |argv| ==> stores[i + 1] == Store(argAddrs[first + i], Utf8.Encode(argv[i]) + [0])
  {
    [Store(argAddrs[0], path + [0])]
      + seq(|argv|, i requires 0 <= i < |argv| => Store(argAddrs[first + i], Utf8.Encode(argv[i]) + [0]))
  }

  /** Every store of the command line fits in a memory of `size` bytes (`slice_at_mut` succeeds). */
  predicate ArgvFits(size: nat, path: seq<u8>, argv: seq<string>, argAddrs: seq<nat>, first: nat)
    requires first + |argv| <= |argAddrs| && |argAddrs| >= 1
  {
    argAddrs[0] + |path| + 1 <= size
    && forall i :: 0 <= i < |argv| ==> argAddrs[first + i] + |Utf8.Encode(argv[i])| + 1 <= size
  }

  /** Each store of a fitting command line fits the memory. */
  lemma ArgvStoresFit(m: seq<u8>, path: seq<u8>, argv: seq<string>, argAddrs: seq<nat>, first: nat)
    requires first + |argv| <= |argAddrs| && |argAddrs| >= 1
    requires ArgvFits(|m|, path, argv, argAddrs, first)
    ensures forall k :: 0 <= k < |argv| + 1 ==> Fits(m, ArgvStores(path, argv, argAddrs, first)[k])
  {
  }

  /** A store of `bytes` followed by 0, done as `copy_from_slice` and then the terminating byte. */
  method StoreCString(mem: array<u8>, at: nat, bytes: seq<u8>)
    requires at + |bytes| + 1 <= mem.Length
    modifies mem
    ensures mem[..] == Splice(old(mem[..]), at, bytes + [0])
  {
    CopyFromSlice(mem, at, bytes);
    SpliceThenByte(old(mem[..]), at, bytes, 0, mem[..]);
    mem[at + |bytes|] := 0;
  }

  /**
   * `copy_argv` as written: the kernel path goes to slot 0, and then
   * argument `i` goes to slot `i`, so the first argument overwrites the
   * path and the last slot is never written.
   */
  method CopyArgvAsWritten(path: seq<u8>, argv: seq<string>, argAddrs: seq<nat>, mem: array<u8>)
    requires |argAddrs| == |argv| + 1
    requires ArgvFits(mem.Length, path, argv, argAddrs, 0)
    modifies mem
    ensures mem[..] == ApplyAll(old(mem[..]), ArgvStores(path, argv, argAddrs, 0))
  {
    ghost var stores := ArgvStores(path, argv, argAddrs, 0);
    ArgvStoresFit(mem[..], path, argv, argAddrs, 0);
    StoreCString(mem, argAddrs[0], path);
    assert stores[..1] == [stores[0]];
    for counter := 0 to |argv|
      invariant mem[..] == ApplyAll(old(mem[..]), stores[..counter + 1])
    {
      var argument := Utf8.Encode(argv[counter]);
      ghost var cur := mem[..];
      ApplyAllStep(old(mem[..]), stores, counter + 1, cur);
      StoreCString(mem, argAddrs[counter], argument);
    }
    assert stores[..|argv| + 1] == stores;
  }

  /** `copy_argv` with argument `i` in slot `i + 1`, after the kernel path. */
  method CopyArgv(path: seq<u8>, argv: seq<string>, argAddrs: seq<nat>, mem: array<u8>)
    requires |argAddrs| == |argv| + 1
    requires ArgvFits(mem.Length, path, argv, argAddrs, 1)
    modifies mem
    ensures mem[..] == ApplyAll(old(mem[..]), ArgvStores(path, argv, argAddrs, 1))
  {
    ghost var stores := ArgvStores(path, argv, argAddrs, 1);
    ArgvStoresFit(mem[..], path, argv, argAddrs, 1);
    StoreCString(mem, argAddrs[0], path);
    assert stores[..1] == [stores[0]];
    for counter := 0 to |argv|
      invariant mem[..] == ApplyAll(old(mem[..]), stores[..counter + 1])
    {
      var argument := Utf8.Encode(argv[counter]);
      ghost var cur := mem[..];
      ApplyAllStep(old(mem[..]), stores, counter + 1, cur);
      StoreCString(mem, argAddrs[counter + 1], argument);
    }
    assert stores[..|argv| + 1] == stores;
  }

  /**
   * With argument `i` in slot `i + 1` and disjoint slots, the guest reads
   * back the kernel path from slot 0 and argument `i` from slot `i + 1`,
   * when none of them holds a NUL.
   */
  lemma ArgvReadBack(m: seq<u8>, path: seq<u8>, argv: seq<string>, argAddrs: seq<nat>, i: nat)
    requires |argAddrs| == |argv| + 1
    requires ArgvFits(|m|, path, argv, argAddrs, 1)
    requires PairwiseDisjoint(ArgvStores(path, argv, argAddrs, 1))
    requires 0 !in path
    requires forall k :: 0 <= k < |argv| ==> '\0' !in argv[k]
    requires i <= |argv|
    ensures var after := ApplyAll(m, ArgvStores(path, argv, argAddrs, 1));
            Terminated(after, argAddrs[i])
            && CStr(after, argAddrs[i]) == if i == 0 then path else Utf8.Encode(argv[i - 1])
  {
    var stores := ArgvStores(path, argv, argAddrs, 1);
    var bytes := if i == 0 then path else Utf8.Encode(argv[i - 1]);
    assert 0 !in bytes by {
      if i > 0 {
        Utf8.EncodeNoNul(argv[i - 1]);
      }
    }
    assert stores[i] == Store(argAddrs[i], bytes + [0]);
    ArgvStoresFit(m, path, argv, argAddrs, 1);
    ReadBackStore(m, stores, i, bytes);
  }

  /**
   * As written, with the path `k`, the one argument `a` and the slots 0
   * and 2 of a four-byte memory, slot 0 reads `a` and slot 2 stays empty:
   * the kernel path is lost.
   */
  lemma CopyArgvAsWrittenLosesPath()
    ensures ApplyAll([0, 0, 0, 0], ArgvStores([0x6B], ["a"], [0, 2], 0)) == [0x61, 0, 0, 0]
    ensures ApplyAll([0, 0, 0, 0], ArgvStores([0x6B], ["a"], [0, 2], 1)) == [0x6B, 0, 0x61, 0]
  {
    var m: seq<u8> := [0, 0, 0, 0];
    assert Utf8.Encode("a") == [0x61] by {
      assert Utf8.Encode("a") == Utf8.EncodeChar('a') + Utf8.Encode([]);
    }
    var asWritten := ArgvStores([0x6B], ["a"], [0, 2], 0);
    assert asWritten[0] == Store(0, [0x6B, 0]) && asWritten[1] == Store(0, [0x61, 0]);
    assert asWritten[..1] == [Store(0, [0x6B, 0])] && asWritten[..1][..0] == [];
    assert ApplyAll(m, asWritten[..1]) == [0x6B, 0, 0, 0];
    var corrected := ArgvStores([0x6B], ["a"], [0, 2], 1);
    assert corrected[0] == Store(0, [0x6B, 0]) && corrected[1] == Store(2, [0x61, 0]);
    assert corrected[..1] == [Store(0, [0x6B, 0])] && corrected[..1][..0] == [];
    assert ApplyAll(m, corrected[..1]) == [0x6B, 0, 0, 0];
  }

  /** The bytes of one environment entry: `key=value` and a 0. */
  function EnvEntry(key: seq<u8>, value: seq<u8>): seq<u8> {
    key + [0x3D] + value + [0]
  }

  function Min(a: nat, b: nat): nat {
    if a < b then a else b
  }

  /** The stores of `copy_env`: entry `i` at `envAddrs[i]`, for the first `maxArgcEnvc` entries only. */
  function EnvStores(env: seq<(seq<u8>, seq<u8>)>, envAddrs: seq<nat>, maxArgcEnvc: nat): (stores: seq<Store>)
    requires |envAddrs| == |env|
    ensures |stores| == Min(|env|, maxArgcEnvc)
    ensures forall i :: 0 <= i < |stores| ==> stores[i] == Store(envAddrs[i], EnvEntry(env[i].0, env[i].1))
  {
    seq(Min(|env|, maxArgcEnvc), i requires 0 <= i < Min(|env|, maxArgcEnvc) => Store(envAddrs[i], EnvEntry(env[i].0, env[i].1)))
  }

  /** Every copied entry fits in a memory of `size` bytes. */
  predicate EnvFits(size: nat, env: seq<(seq<u8>, seq<u8>)>, envAddrs: seq<nat>, maxArgcEnvc: nat)
    requires |envAddrs| == |env|
  {
    forall i :: 0 <= i < Min(|env|, maxArgcEnvc) ==> envAddrs[i] + |env[i].0| + |env[i].1| + 2 <= size
  }

  /** One entry of `copy_env`: the key, `=`, the value and the terminating 0, stored in this order. */
  method StoreEnvEntry(mem: array<u8>, at: nat, key: seq<u8>, value: seq<u8>)
    requires at + |key| + |value| + 2 <= mem.Length
    modifies mem
    ensures mem[..] == Splice(old(mem[..]), at, EnvEntry(key, value))
  {
    var len := |key| + |value| + 1;
    ghost var m0 := mem[..];
    CopyFromSlice(mem, at, key);
    SpliceThenByte(m0, at, key, 0x3D, mem[..]);
    mem[at + |key|] := 0x3D;
    SpliceThenBytes(m0, at, key + [0x3D], value, mem[..]);
    CopyFromSlice(mem, at + |key| + 1, value);
    SpliceThenByte(m0, at, key + [0x3D] + value, 0, mem[..]);
    mem[at + len] := 0;
    assert EnvEntry(key, value) == key + [0x3D] + value + [0];
  }

  /**
   * `copy_env`: entry `i` is stored as `key=value` and a 0 at
   * `envAddrs[i]`; the loop stops before entry `maxArgcEnvc`.
   */
  method CopyEnv(env: seq<(seq<u8>, seq<u8>)>, envAddrs: seq<nat>, maxArgcEnvc: nat, mem: array<u8>)
    requires |envAddrs| == |env|
    requires EnvFits(mem.Length, env, envAddrs, maxArgcEnvc)
    modifies mem
    ensures mem[..] == ApplyAll(old(mem[..]), EnvStores(env, envAddrs, maxArgcEnvc))
  {
    ghost var stores := EnvStores(env, envAddrs, maxArgcEnvc);
    for counter := 0 to |env|
      invariant counter <= |stores|
      invariant mem[..] == ApplyAll(old(mem[..]), stores[..counter])
    {
      if counter >= maxArgcEnvc {
        assert stores[..counter] == stores;
        break;
      }
      var (key, value) := env[counter];
      ghost var cur := mem[..];
      ApplyAllStep(old(mem[..]), stores, counter, cur);
      StoreEnvEntry(mem, envAddrs[counter], key, value);
    }
    assert stores[..|stores|] == stores;
  }

  /**
   * After `copy_env` into disjoint slots, the guest reads entry `i` back as
   * `key=value` for each copied entry whose key and value hold no 0 byte.
   */
  lemma EnvReadBack(m: seq<u8>, env: seq<(seq<u8>, seq<u8>)>, envAddrs: seq<nat>, maxArgcEnvc: nat, i: nat)
    requires |envAddrs| == |env|
    requires EnvFits(|m|, env, envAddrs, maxArgcEnvc)
    requires PairwiseDisjoint(EnvStores(env, envAddrs, maxArgcEnvc))
    requires i < Min(|env|, maxArgcEnvc)
    requires 0 !in env[i].0 && 0 !in env[i].1
    ensures var after := ApplyAll(m, EnvStores(env, envAddrs, maxArgcEnvc));
            Terminated(after, envAddrs[i]) && CStr(after, envAddrs[i]) == env[i].0 + [0x3D] + env[i].1
  {
    var stores := EnvStores(env, envAddrs, maxArgcEnvc);
    var key, value := env[i].0, env[i].1;
    var bytes := key + [0x3D] + value;
    assert EnvEntry(key, value) == bytes + [0];
    ReadBackStore(m, stores, i, bytes);
  }
}
