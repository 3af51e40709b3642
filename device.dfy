/**
 * `TCEDevice` and the `pocl_tce_*` entry points of the TCE/TTA backend:
 * address-space bring-up, word I/O with byte swapping, the kernel
 * residency cache, buffer allocation and transfers, and the kernel launch
 * with its command-slot handshake.
 *
 * The device is a `TceDevice` object. Its memory is a byte map that always
 * equals the replay of its access log (`trace`) over the initial memory;
 * the program loader, the symbol table, the work-group generator and
 * `tcecc` are oracle parameters; the device side of a busy-wait is a
 * script of the status values it leaves in the command slot.
 */
module Tce {
  import opened Wrappers
  import opened Words
  import opened Allocator
  import opened DeviceMemory
  import opened ExecCommand
  import opened AddressSpaces
  import opened Launch
  import opened Rect

  const ClSuccess: int := 0
  const ClMemObjectAllocationFailure: int := -4

  /** `cl_mem_flags` bits the driver tests. */
  const ClMemUseHostPtr: nat := 8
  const ClMemCopyHostPtr: nat := 32

  predicate HasFlag(flags: nat, bit: nat)
    requires bit > 0
  {
    (flags / bit) % 2 == 1
  }

  /** `pocl_tce_malloc` copies the host data into the new chunk when the
      buffer is created with COPY_HOST_PTR, or with USE_HOST_PTR and a
      host pointer. */
  predicate CopiesHostData(flags: nat, hostPtr: Option<seq<Byte>>)
  {
    HasFlag(flags, ClMemCopyHostPtr) || (HasFlag(flags, ClMemUseHostPtr) && hostPtr.Some?)
  }

  /** One entry of `mem_obj->device_ptrs`. */
  datatype DevicePtr = DevicePtr(available: bool, globalMemId: nat, memPtr: Option<Chunk>)

  /** An entry another device already filled in this device's global memory. */
  predicate Reusable(p: DevicePtr, globalMemId: nat)
  {
    p.available && p.globalMemId == globalMemId && p.memPtr.Some?
  }

  /** The first reusable entry, if any. */
  function FirstReusable(ptrs: seq<DevicePtr>, globalMemId: nat): (r: Option<nat>)
    ensures r.Some? ==>
      && r.value < |ptrs| && Reusable(ptrs[r.value], globalMemId)
      && forall j :: 0 <= j < r.value ==> !Reusable(ptrs[j], globalMemId)
    ensures r.None? ==> forall j :: 0 <= j < |ptrs| ==> !Reusable(ptrs[j], globalMemId)
    decreases |ptrs|
  {
    if ptrs == [] then None
    else
      var n := |ptrs| - 1;
      var r := FirstReusable(ptrs[..n], globalMemId);
      if r.Some? then Some(r.value)
      else if Reusable(ptrs[n], globalMemId) then Some(n)
      else None
  }

  /** `cl_mem`: the buffer's flags and size, and its per-device chunks. */
  class MemObject {
    const flags: nat
    const size: nat
    var devicePtrs: seq<DevicePtr>

    constructor (flags: nat, size: nat, devicePtrs: seq<DevicePtr>)
      ensures this.flags == flags && this.size == size && this.devicePtrs == devicePtrs
    {
      this.flags := flags;
      this.size := size;
      this.devicePtrs := devicePtrs;
    }
  }

  /** The kernel residency cache: which kernel, with which local size, is
      loaded on the device, and the address of its metadata. */
  datatype Residency = Residency(kernel: Option<nat>, localX: Word, localY: Word, localZ: Word, kernelAddr: Word)

  /** The log of a kernel selection that reached the device: a new kernel
      is loaded then restarted, a resident one only restarted. */
  function ResidencyTrace(isNew: bool): seq<Access>
  {
    if isNew then [LoadProgram, RestartProgram] else [RestartProgram]
  }

  /** What `pocl_tce_compile_kernel` ran. */
  datatype CompileAction = GenerateWorkGroup | RunTcecc

  datatype CompileOutcome = Compiled | WorkGroupGenerationFailed | TceccFailed

  /** The first `n` row copies of a rect write: each row's bytes from host
      memory to the buffer's chunk. */
  function RowWrites(ts: seq<Transfer>, c: Chunk, host: seq<Byte>, n: nat): (t: seq<Access>)
    requires RowsInHost(ts, |host|) && n <= |ts|
    ensures |t| == n
    decreases n
  {
    if n == 0 then []
    else RowWrites(ts, c, host, n - 1) + [HostWrite(c.start + ts[n - 1].bufferOffset, host[ts[n - 1].hostOffset .. ts[n - 1].hostOffset + ts[n - 1].len])]
  }

  /** The reads logged by the first `n` row copies of a rect read. */
  function RowReads(ts: seq<Transfer>, c: Chunk, n: nat): (t: seq<Access>)
    requires n <= |ts|
    ensures |t| == n
    decreases n
  {
    if n == 0 then []
    else RowReads(ts, c, n - 1) + [HostRead(c.start + ts[n - 1].bufferOffset, ts[n - 1].len)]
  }

  /** Host memory after the first `n` rows of a rect read land in it, in
      order (a later row wins where rows overlap). */
  function HostAfterReads(ts: seq<Transfer>, c: Chunk, m: Mem, host: seq<Byte>, n: nat): (h: seq<Byte>)
    requires RowsInHost(ts, |host|) && n <= |ts|
    ensures |h| == |host|
    decreases n
  {
    if n == 0 then host
    else Splice(HostAfterReads(ts, c, m, host, n - 1), ts[n - 1].hostOffset, ReadBytes(m, c.start + ts[n - 1].bufferOffset, ts[n - 1].len))
  }

  /** Device address `a` lies in the row copied by `t` into chunk `c`. */
  predicate Covers(t: Transfer, c: Chunk, a: int)
  {
    c.start + t.bufferOffset <= a < c.start + t.bufferOffset + t.len
  }

  /** Row `n` of a rect write sets the device bytes it covers and leaves
      the others as the earlier rows left them. */
  lemma {:induction false} RowWritesLast(m: Mem, ts: seq<Transfer>, c: Chunk, host: seq<Byte>, a: int, n: nat)
    requires RowsInHost(ts, |host|) && n < |ts|
    ensures Get(Replay(m, RowWrites(ts, c, host, n + 1)), a) ==
      if Covers(ts[n], c, a) then host[ts[n].hostOffset + (a - c.start - ts[n].bufferOffset)]
      else Get(Replay(m, RowWrites(ts, c, host, n)), a)
  {
    var prefix := RowWrites(ts, c, host, n);
    var addr := c.start + ts[n].bufferOffset;
    var data := host[ts[n].hostOffset .. ts[n].hostOffset + ts[n].len];
    ReplaySnoc(m, prefix, HostWrite(addr, data));
    WriteBytesAt(Replay(m, prefix), addr, data, a);
  }

  /** After the first `n` row writes of a rect write, a device byte that
      none of them covers is unchanged. */
  lemma {:induction false} RowWritesUntouched(m: Mem, ts: seq<Transfer>, c: Chunk, host: seq<Byte>, a: int, n: nat)
    requires RowsInHost(ts, |host|) && n <= |ts|
    requires forall i :: 0 <= i < n ==> !Covers(ts[i], c, a)
    ensures Get(Replay(m, RowWrites(ts, c, host, n)), a) == Get(m, a)
    decreases n
  {
    if n > 0 {
      RowWritesLast(m, ts, c, host, a, n - 1);
      RowWritesUntouched(m, ts, c, host, a, n - 1);
    }
  }

  /** After the first `n` row writes of a rect write, a device byte covered
      by row `i` and by no later one of them holds row `i`'s host byte. */
  lemma {:induction false} RowWritesCovered(m: Mem, ts: seq<Transfer>, c: Chunk, host: seq<Byte>, a: int, i: nat, n: nat)
    requires RowsInHost(ts, |host|) && n <= |ts|
    requires i < n && Covers(ts[i], c, a)
    requires forall j :: i < j < n ==> !Covers(ts[j], c, a)
    ensures Get(Replay(m, RowWrites(ts, c, host, n)), a) == host[ts[i].hostOffset + (a - c.start - ts[i].bufferOffset)]
    decreases n
  {
    RowWritesLast(m, ts, c, host, a, n - 1);
    if i < n - 1 {
      assert !Covers(ts[n - 1], c, a);
      RowWritesCovered(m, ts, c, host, a, i, n - 1);
    }
  }

  /** Row `n` of a rect read sets the host bytes it covers to the device
      bytes and leaves the others as the earlier rows left them. */
  lemma {:induction false} HostAfterReadsLast(ts: seq<Transfer>, c: Chunk, m: Mem, host: seq<Byte>, x: int, n: nat)
    requires RowsInHost(ts, |host|) && n < |ts| && 0 <= x < |host|
    ensures HostAfterReads(ts, c, m, host, n + 1)[x] ==
      if HostCovers(ts[n], x) then Get(m, c.start + ts[n].bufferOffset + (x - ts[n].hostOffset))
      else HostAfterReads(ts, c, m, host, n)[x]
  {
    SpliceAt(HostAfterReads(ts, c, m, host, n), ts[n].hostOffset, ReadBytes(m, c.start + ts[n].bufferOffset, ts[n].len), x);
  }

  /** After the first `n` rows of a rect read, a host byte that none of
      them covers is unchanged. */
  lemma {:induction false} HostAfterReadsUntouched(ts: seq<Transfer>, c: Chunk, m: Mem, host: seq<Byte>, x: int, n: nat)
    requires RowsInHost(ts, |host|) && n <= |ts| && 0 <= x < |host|
    requires forall i :: 0 <= i < n ==> !HostCovers(ts[i], x)
    ensures HostAfterReads(ts, c, m, host, n)[x] == host[x]
    decreases n
  {
    if n > 0 {
      HostAfterReadsLast(ts, c, m, host, x, n - 1);
      HostAfterReadsUntouched(ts, c, m, host, x, n - 1);
    }
  }

  /** After the first `n` rows of a rect read, a host byte covered by row
      `i` and by no later one of them holds the device byte row `i`
      copied to it. */
  lemma {:induction false} HostAfterReadsCovered(ts: seq<Transfer>, c: Chunk, m: Mem, host: seq<Byte>, x: int, i: nat, n: nat)
    requires RowsInHost(ts, |host|) && n <= |ts| && 0 <= x < |host|
    requires i < n && HostCovers(ts[i], x)
    requires forall j :: i < j < n ==> !HostCovers(ts[j], x)
    ensures HostAfterReads(ts, c, m, host, n)[x] == Get(m, c.start + ts[i].bufferOffset + (x - ts[i].hostOffset))
    decreases n
  {
    HostAfterReadsLast(ts, c, m, host, x, n - 1);
    if i < n - 1 {
      assert !HostCovers(ts[n - 1], x);
      HostAfterReadsCovered(ts, c, m, host, x, i, n - 1);
    }
  }

  class TceDevice {
    /** Set exactly when the host is little-endian (the device is big-endian). */
    const needsByteSwap: bool
    const devId: nat
    const globalMemId: nat

    /** Device memory; always the replay of `trace` over `initialMem`. */
    var mem: Mem
    ghost var initialMem: Mem
    /** Every access made so far, oldest first. */
    var trace: seq<Access>

    /** The address spaces of the machine description, and the ones bound
        to the local, private and global roles. */
    var addressSpaces: seq<AddressSpace>
    var localAs: Option<nat>
    var privateAs: Option<nat>
    var globalAs: Option<nat>

    var localMem: Region
    var globalMem: Region
    var localMemSize: int
    var globalMemSize: int
    var maxMemAllocSize: int

    /** Address of the single command slot. */
    var commandQueueAddr: int

    var curKernel: Option<nat>
    var curLocalX: Word
    var curLocalY: Word
    var curLocalZ: Word
    var curKernelAddr: Word

    ghost predicate Valid()
      reads this
    {
      RegionsOk() && MemOk()
    }

    /** Both allocation regions keep the allocator's invariant. */
    ghost predicate RegionsOk()
      reads this`localMem, this`globalMem
    {
      && Allocator.Valid(localMem) && localMem.kind == LocalMem
      && Allocator.Valid(globalMem) && globalMem.kind == GlobalMem
    }

    /** Device memory is the replay of the log. */
    ghost predicate MemOk()
      reads this`mem, this`trace, this`initialMem
    {
      mem == Replay(initialMem, trace)
    }

    /** `TCEDevice::TCEDevice`: no address space bound, nothing resident,
        and the swap flag set exactly on a little-endian host. */
    constructor (bigEndianHost: bool, devId: nat, globalMemId: nat, initialMem: Mem)
      ensures Valid()
      ensures needsByteSwap == !bigEndianHost && this.devId == devId && this.globalMemId == globalMemId
      ensures localAs.None? && privateAs.None? && globalAs.None?
      ensures curKernel.None? && curKernelAddr == 0
      ensures trace == [] && mem == initialMem
    {
      needsByteSwap := !bigEndianHost;
      this.devId := devId;
      this.globalMemId := globalMemId;
      mem := initialMem;
      this.initialMem := initialMem;
      trace := [];
      addressSpaces := [];
      localAs, privateAs, globalAs := None, None, None;
      localMem := InitRegion(LocalMem, 0, 0);
      globalMem := InitRegion(GlobalMem, 0, 0);
      localMemSize, globalMemSize, maxMemAllocSize := 0, 0, 0;
      commandQueueAddr := 0;
      curKernel := None;
      curLocalX, curLocalY, curLocalZ, curKernelAddr := 0, 0, 0, 0;
    }

    function Cache(): Residency
      reads this`curKernel, this`curLocalX, this`curLocalY, this`curLocalZ, this`curKernelAddr
    {
      Residency(curKernel, curLocalX, curLocalY, curLocalZ, curKernelAddr)
    }

    // ---------------------------------------------------------------
    // Raw transfers and word I/O

    /** `copyHostToDevice`. */
    method CopyHostToDevice(src: seq<Byte>, addr: int)
      requires Valid()
      modifies this`mem, this`trace
      ensures Valid()
      ensures mem == WriteBytes(old(mem), addr, src)
      ensures trace == old(trace) + [HostWrite(addr, src)]
    {
      ReplaySnoc(initialMem, trace, HostWrite(addr, src));
      mem := WriteBytes(mem, addr, src);
      trace := trace + [HostWrite(addr, src)];
    }

    /** `copyDeviceToHost`. */
    method CopyDeviceToHost(addr: int, n: nat) returns (data: seq<Byte>)
      requires Valid()
      modifies this`trace
      ensures Valid()
      ensures data == ReadBytes(mem, addr, n)
      ensures trace == old(trace) + [HostRead(addr, n)]
    {
      ReplaySnoc(initialMem, trace, HostRead(addr, n));
      data := ReadBytes(mem, addr, n);
      trace := trace + [HostRead(addr, n)];
    }

    /** The device's own store of a status word into the command slot,
        in its (big-endian) byte order. */
    method DeviceStoresStatus(v: Word)
      requires Valid()
      modifies this`mem, this`trace
      ensures Valid()
      ensures mem == WriteBytes(old(mem), commandQueueAddr, BigEndian(v))
      ensures trace == old(trace) + [DeviceStore(commandQueueAddr, BigEndian(v))]
    {
      ReplaySnoc(initialMem, trace, DeviceStore(commandQueueAddr, BigEndian(v)));
      mem := WriteBytes(mem, commandQueueAddr, BigEndian(v));
      trace := trace + [DeviceStore(commandQueueAddr, BigEndian(v))];
    }

    /** Log an access that does not touch memory: a program load or
        restart, or an allocator call. */
    method Log(a: Access)
      requires Valid() && !a.HostWrite? && !a.DeviceStore?
      modifies this`trace
      ensures Valid()
      ensures trace == old(trace) + [a]
    {
      ReplaySnoc(initialMem, trace, a);
      trace := trace + [a];
    }

    /** `writeWordToDevice`: swap, then copy the word's four bytes; a
        later word read returns the value written. */
    method WriteWordToDevice(addr: int, w: Word)
      requires Valid()
      modifies this`mem, this`trace
      ensures Valid()
      ensures mem == WriteBytes(old(mem), addr, WordImage(w, needsByteSwap))
      ensures trace == old(trace) + [HostWrite(addr, WordImage(w, needsByteSwap))]
      ensures ReadWord(mem, addr, needsByteSwap) == w
    {
      var swapped := ByteSwap(w, needsByteSwap);
      CopyHostToDevice(HostBytes(swapped, needsByteSwap), addr);
      WordReadAfterWrite(old(mem), addr, w, needsByteSwap);
    }

    /** `readWordFromDevice`: copy four bytes, then swap. */
    method ReadWordFromDevice(addr: int) returns (w: Word)
      requires Valid()
      modifies this`trace
      ensures Valid()
      ensures w == ReadWord(mem, addr, needsByteSwap)
      ensures trace == old(trace) + [HostRead(addr, 4)]
    {
      var result := CopyDeviceToHost(addr, 4);
      w := ByteSwap(FromHostBytes(result, needsByteSwap), needsByteSwap);
    }

    // ---------------------------------------------------------------
    // Bring-up

    /** The scan at the head of `initMemoryManagement`: every space
        carrying a role's ids is bound to it in turn, so each role ends up
        bound to the last space carrying it. */
    method BindAddressSpaces(spaces: seq<AddressSpace>)
      requires localAs.None? && privateAs.None? && globalAs.None?
      modifies this`addressSpaces, this`localAs, this`privateAs, this`globalAs
      ensures addressSpaces == spaces
      ensures localAs == LastWithRole(spaces, LocalRole)
      ensures privateAs == LastWithRole(spaces, PrivateRole)
      ensures globalAs == LastWithRole(spaces, GlobalRole)
    {
      var i := 0;
      while i < |spaces|
        invariant 0 <= i <= |spaces|
        invariant localAs == LastWithRole(spaces[..i], LocalRole)
        invariant privateAs == LastWithRole(spaces[..i], PrivateRole)
        invariant globalAs == LastWithRole(spaces[..i], GlobalRole)
      {
        assert spaces[..i + 1][..i] == spaces[..i];
        if AsidLocal in spaces[i].ids {
          localAs := Some(i);
        }
        if AsidPrivate in spaces[i].ids {
          privateAs := Some(i);
        }
        if AsidGlobal in spaces[i].ids && AsidConstant in spaces[i].ids {
          globalAs := Some(i);
        }
        i := i + 1;
      }
      assert spaces[..|spaces|] == spaces;
      addressSpaces := spaces;
    }

    /** `initMemoryManagement`: bind the three roles by scanning the
        address spaces, then check and size them exactly as `Configure`
        does; on success both allocation regions are initialised, the
        global one starting one command record past the command slot. */
    method InitMemoryManagement(spaces: seq<AddressSpace>, multiCore: bool) returns (r: Result<MemConfig, ConfigError>)
      requires Valid()
      requires localAs.None? && privateAs.None? && globalAs.None?
      modifies this`addressSpaces, this`localAs, this`privateAs, this`globalAs
      modifies this`localMemSize, this`globalMemSize, this`maxMemAllocSize, this`localMem, this`globalMem
      ensures Valid()
      ensures r == Configure(spaces, multiCore)
      ensures addressSpaces == spaces
      ensures localAs == LastWithRole(spaces, LocalRole)
      ensures privateAs == LastWithRole(spaces, PrivateRole)
      ensures globalAs == LastWithRole(spaces, GlobalRole)
      ensures r.Success? ==>
        && localMemSize == r.value.localMemSize
        && globalMemSize == maxMemAllocSize == r.value.globalMemSize
        && localMem == InitRegion(LocalMem, r.value.localMemStart, r.value.localMemSize)
        && globalMem == InitRegion(GlobalMem, r.value.globalMemStart, r.value.globalMemSize)
      ensures r.Failure? ==> localMem == old(localMem) && globalMem == old(globalMem)
      ensures r.Failure? && r.error != GlobalSpaceTooSmall ==> localMemSize == old(localMemSize)
      ensures r == Failure(GlobalSpaceTooSmall) ==>
        localMemSize == LocalSize(spaces, localAs.value, privateAs.value)
    {
      BindAddressSpaces(spaces);
      r := SizeRegions(spaces, multiCore);
    }

    /** The checks and sizing of `initMemoryManagement` once the roles
        are bound. */
    method SizeRegions(spaces: seq<AddressSpace>, multiCore: bool) returns (r: Result<MemConfig, ConfigError>)
      requires addressSpaces == spaces
      requires localAs == LastWithRole(spaces, LocalRole)
      requires privateAs == LastWithRole(spaces, PrivateRole)
      requires globalAs == LastWithRole(spaces, GlobalRole)
      modifies this`localMemSize, this`globalMemSize, this`maxMemAllocSize, this`localMem, this`globalMem
      ensures r == Configure(spaces, multiCore)
      ensures r.Success? ==>
        && localMemSize == r.value.localMemSize
        && globalMemSize == maxMemAllocSize == r.value.globalMemSize
        && localMem == InitRegion(LocalMem, r.value.localMemStart, r.value.localMemSize)
        && globalMem == InitRegion(GlobalMem, r.value.globalMemStart, r.value.globalMemSize)
      ensures r.Failure? ==> localMem == old(localMem) && globalMem == old(globalMem)
      ensures r.Failure? && r.error != GlobalSpaceTooSmall ==> localMemSize == old(localMemSize)
      ensures r == Failure(GlobalSpaceTooSmall) ==>
        localMemSize == LocalSize(spaces, localAs.value, privateAs.value)
    {
      if localAs.None? {
        return Failure(NoLocalSpace);
      }
      var l := localAs.value;
      if multiCore && spaces[l].shared {
        return Failure(LocalSpaceShared);
      }
      if privateAs.None? {
        return Failure(NoPrivateSpace);
      }
      var p := privateAs.value;
      if multiCore && spaces[p].shared {
        return Failure(PrivateSpaceShared);
      }
      if globalAs.None? {
        return Failure(NoGlobalSpace);
      }
      var g := globalAs.value;
      if multiCore && !spaces[g].shared {
        return Failure(GlobalSpaceNotShared);
      }

      var localSize := if p == l then Int32(spaces[l].end - spaces[l].start - UnallocatedLocalSpace)
                       else Int32(spaces[l].end - spaces[l].start);
      if localSize < 0 {
        return Failure(LocalSpaceTooSmall);
      }
      localMemSize := localSize;
      var globalSize := Int32(spaces[g].end - spaces[l].start - UnallocatedGlobalSpace);
      if globalSize < 0 {
        return Failure(GlobalSpaceTooSmall);
      }
      globalMemSize, maxMemAllocSize := globalSize, globalSize;
      localMem, globalMem := InitRegion(LocalMem, spaces[l].start, localSize),
                             InitRegion(GlobalMem, spaces[g].start + UnallocatedGlobalSpace + CmdSize, globalSize);
      r := Success(MemConfig(l, p, g, localSize, globalSize, globalSize, spaces[l].start,
                             spaces[g].start + UnallocatedGlobalSpace + CmdSize,
                             spaces[g].start + UnallocatedGlobalSpace));
    }

    /** `findDataMemoryAddresses`: the command slot follows the global
        reservation. */
    method FindDataMemoryAddresses()
      requires globalAs.Some? && globalAs.value < |addressSpaces|
      modifies this`commandQueueAddr
      ensures commandQueueAddr == addressSpaces[globalAs.value].start + UnallocatedGlobalSpace
    {
      commandQueueAddr := addressSpaces[globalAs.value].start + UnallocatedGlobalSpace;
    }

    /** `initDataMemory`: place the command slot and mark it FREE. */
    method InitDataMemory()
      requires Valid()
      requires globalAs.Some? && globalAs.value < |addressSpaces|
      modifies this`commandQueueAddr, this`mem, this`trace
      ensures Valid()
      ensures commandQueueAddr == addressSpaces[globalAs.value].start + UnallocatedGlobalSpace
      ensures trace == old(trace) + [HostWrite(commandQueueAddr, WordImage(KstFree, needsByteSwap))]
      ensures ReadWord(mem, commandQueueAddr, needsByteSwap) == KstFree
    {
      FindDataMemoryAddresses();
      WriteWordToDevice(commandQueueAddr, KstFree);
    }

    // ---------------------------------------------------------------
    // Kernel residency cache

    /** `isNewKernel`: the cached program cannot serve `cmd` unless the
        same kernel with the same local size is resident. */
    function IsNewKernel(cmd: RunCommand): (r: bool)
      reads this`curKernel, this`curLocalX, this`curLocalY, this`curLocalZ
      ensures !r <==>
        curKernel == Some(cmd.kernel) &&
        cmd.localX == curLocalX && cmd.localY == curLocalY && cmd.localZ == curLocalZ
    {
      if curKernel.None? || cmd.kernel != curKernel.value then true
      else if cmd.localX != curLocalX || cmd.localY != curLocalY || cmd.localZ != curLocalZ then true
      else false
    }

    /** `updateCurrentKernel`: afterwards `cmd` is served from the cache. */
    method UpdateCurrentKernel(cmd: RunCommand, kernelAddr: Word)
      modifies this`curKernel, this`curLocalX, this`curLocalY, this`curLocalZ, this`curKernelAddr
      ensures Cache() == Residency(Some(cmd.kernel), cmd.localX, cmd.localY, cmd.localZ, kernelAddr)
      ensures !IsNewKernel(cmd)
    {
      curKernelAddr := kernelAddr;
      curKernel := Some(cmd.kernel);
      curLocalX := cmd.localX;
      curLocalY := cmd.localY;
      curLocalZ := cmd.localZ;
    }

    /** `pocl_tce_compile_kernel`'s decisions. Only NDRANGE commands are
        compiled; the work-group function is always regenerated, and
        `tcecc` runs only for a kernel that is not resident and whose
        `parallel.tpef` is missing. The cache is never touched. */
    method CompileKernel(isNdRange: bool, cmd: RunCommand, workGroupGenOk: bool, tpefExists: bool, tceccOk: bool)
      returns (outcome: CompileOutcome, actions: seq<CompileAction>)
      ensures !isNdRange ==> outcome == Compiled && actions == []
      ensures isNdRange && !workGroupGenOk ==> outcome == WorkGroupGenerationFailed && actions == [GenerateWorkGroup]
      ensures isNdRange && workGroupGenOk ==>
        var build := IsNewKernel(cmd) && !tpefExists;
        && actions == [GenerateWorkGroup] + (if build then [RunTcecc] else [])
        && (outcome == TceccFailed <==> build && !tceccOk)
        && outcome != WorkGroupGenerationFailed
    {
      if !isNdRange {
        return Compiled, [];
      }
      actions := [GenerateWorkGroup];
      if !workGroupGenOk {
        return WorkGroupGenerationFailed, actions;
      }
      outcome := Compiled;
      if IsNewKernel(cmd) {
        if !tpefExists {
          actions := actions + [RunTcecc];
          if !tceccOk {
            outcome := TceccFailed;
          }
        }
      }
    }

    // ---------------------------------------------------------------
    // Buffers

    /** `pocl_tce_malloc`: a fresh chunk of global memory, filled from
        the host when the flags ask for it; null when the region is full. */
    method Malloc(flags: nat, size: nat, hostPtr: Option<seq<Byte>>) returns (c: Option<Chunk>)
      requires Valid()
      requires CopiesHostData(flags, hostPtr) ==> hostPtr.Some? && |hostPtr.value| == size
      modifies this`globalMem, this`mem, this`trace
      ensures Valid()
      ensures (globalMem, c) == Alloc(old(globalMem), size)
      ensures c.None? ==> trace == old(trace)
      ensures c.Some? ==>
        trace == old(trace) + [AllocChunk(c.value)] +
                 (if CopiesHostData(flags, hostPtr) then [HostWrite(c.value.start, hostPtr.value)] else [])
    {
      var res := Alloc(globalMem, size);
      if res.1.None? {
        return None;
      }
      globalMem := res.0;
      c := res.1;
      Log(AllocChunk(c.value));
      if CopiesHostData(flags, hostPtr) {
        CopyHostToDevice(hostPtr.value, c.value.start);
      }
    }

    /** `pocl_tce_malloc_local`: a fresh chunk of local memory, or null. */
    method MallocLocal(size: nat) returns (c: Option<Chunk>)
      requires Valid()
      modifies this`localMem, this`trace
      ensures Valid()
      ensures (localMem, c) == Alloc(old(localMem), size)
      ensures trace == old(trace) + (if c.Some? then [AllocChunk(c.value)] else [])
    {
      var res := Alloc(localMem, size);
      if res.1.None? {
        return None;
      }
      localMem := res.0;
      c := res.1;
      Log(AllocChunk(c.value));
    }

    /** `pocl_tce_alloc_mem_obj`: share the chunk of the first device with
        the same global memory that already holds one; otherwise allocate.
        On failure the entry is left as it was. */
    method AllocMemObj(m: MemObject, hostPtr: Option<seq<Byte>>) returns (status: int)
      requires Valid() && devId < |m.devicePtrs|
      requires CopiesHostData(m.flags, hostPtr) ==> hostPtr.Some? && |hostPtr.value| == m.size
      modifies m`devicePtrs, this`globalMem, this`mem, this`trace
      ensures Valid()
      ensures
        var ptrs := old(m.devicePtrs);
        var reuse := FirstReusable(ptrs, globalMemId);
        var alloc := Alloc(old(globalMem), m.size);
        && (reuse.Some? ==>
              && status == ClSuccess && trace == old(trace) && globalMem == old(globalMem)
              && m.devicePtrs == ptrs[devId := ptrs[devId].(memPtr := ptrs[reuse.value].memPtr)])
        && (reuse.None? ==> globalMem == alloc.0)
        && (reuse.None? && alloc.1.None? ==>
              status == ClMemObjectAllocationFailure && m.devicePtrs == ptrs && trace == old(trace))
        && (reuse.None? && alloc.1.Some? ==>
              status == ClSuccess && m.devicePtrs == ptrs[devId := ptrs[devId].(memPtr := alloc.1)])
    {
      var i := 0;
      while i < |m.devicePtrs|
        invariant 0 <= i <= |m.devicePtrs|
        invariant forall j :: 0 <= j < i ==> !Reusable(m.devicePtrs[j], globalMemId)
      {
        if !m.devicePtrs[i].available {
          i := i + 1;
          continue;
        }
        if m.devicePtrs[i].globalMemId == globalMemId && m.devicePtrs[i].memPtr.Some? {
          m.devicePtrs := m.devicePtrs[devId := m.devicePtrs[devId].(memPtr := m.devicePtrs[i].memPtr)];
          return ClSuccess;
        }
        i := i + 1;
      }
      var b := Malloc(m.flags, m.size, hostPtr);
      if b.None? {
        return ClMemObjectAllocationFailure;
      }
      m.devicePtrs := m.devicePtrs[devId := m.devicePtrs[devId].(memPtr := b)];
      status := ClSuccess;
    }

    /** `pocl_tce_write`: host bytes to `offset` within the chunk. */
    method Write(host: seq<Byte>, c: Chunk, offset: int)
      requires Valid()
      modifies this`mem, this`trace
      ensures Valid()
      ensures trace == old(trace) + [HostWrite(c.start + offset, host)]
      ensures mem == WriteBytes(old(mem), c.start + offset, host)
      ensures ReadBytes(mem, c.start + offset, |host|) == host
    {
      CopyHostToDevice(host, c.start + offset);
      ReadAfterWrite(old(mem), c.start + offset, host);
    }

    /** `pocl_tce_read`: `cb` bytes from `offset` within the chunk. */
    method Read(c: Chunk, offset: int, cb: nat) returns (host: seq<Byte>)
      requires Valid()
      modifies this`trace
      ensures Valid()
      ensures host == ReadBytes(mem, c.start + offset, cb)
      ensures trace == old(trace) + [HostRead(c.start + offset, cb)]
    {
      host := CopyDeviceToHost(c.start + offset, cb);
    }

    /** One row of a rect write: `pocl_tce_write` of the row's host bytes,
        which extends the row writes done so far by row `n`. */
    method WriteRow(host: seq<Byte>, c: Chunk, hostAt: int, offset: int, len: nat,
                    ghost ts: seq<Transfer>, ghost n: nat, ghost t0: seq<Access>, ghost m0: Mem)
      requires Valid()
      requires RowsInHost(ts, |host|) && n < |ts| && ts[n] == Transfer(offset, hostAt, len)
      requires trace == t0 + RowWrites(ts, c, host, n) && mem == Replay(m0, RowWrites(ts, c, host, n))
      modifies this`mem, this`trace
      ensures Valid()
      ensures trace == t0 + RowWrites(ts, c, host, n + 1) && mem == Replay(m0, RowWrites(ts, c, host, n + 1))
    {
      ghost var done := RowWrites(ts, c, host, n);
      var row := host[hostAt .. hostAt + len];
      ReplaySnoc(m0, done, HostWrite(c.start + offset, row));
      Write(row, c, offset);
      assert trace == t0 + (done + [HostWrite(c.start + offset, row)]);
    }

    /** `pocl_tce_write_rect`: for each slice k, for each row j, write
        region[0] host bytes of that row to the chunk with `pocl_tce_write`.
        The device then holds the replay of those row writes, byte by byte as
        `RowWritesCovered` and `RowWritesUntouched` say. */
    method WriteRect(host: seq<Byte>, c: Chunk, bufferOrigin: seq<nat>, hostOrigin: seq<nat>, region: seq<nat>,
                     bufferRowPitch: nat, bufferSlicePitch: nat, hostRowPitch: nat, hostSlicePitch: nat)
      requires Valid()
      requires IsTriple(bufferOrigin) && IsTriple(hostOrigin) && IsTriple(region)
      requires RowsInHost(RectTransfers(bufferOrigin, hostOrigin, region, bufferRowPitch, bufferSlicePitch,
                                        hostRowPitch, hostSlicePitch), |host|)
      modifies this`mem, this`trace
      ensures Valid()
      ensures
        var ts := RectTransfers(bufferOrigin, hostOrigin, region, bufferRowPitch, bufferSlicePitch,
                                hostRowPitch, hostSlicePitch);
        && trace == old(trace) + RowWrites(ts, c, host, |ts|)
        && mem == Replay(old(mem), RowWrites(ts, c, host, |ts|))
    {
      ghost var ts := RectTransfers(bufferOrigin, hostOrigin, region, bufferRowPitch, bufferSlicePitch,
                                    hostRowPitch, hostSlicePitch);
      ghost var t0, m0 := trace, mem;
      RectCount(bufferOrigin, hostOrigin, region, bufferRowPitch, bufferSlicePitch, hostRowPitch, hostSlicePitch);
      var hostBase := BaseOffset(hostOrigin, hostRowPitch, hostSlicePitch);
      var baseOffset := BaseOffset(bufferOrigin, bufferRowPitch, bufferSlicePitch);
      ghost var n: nat := 0;
      var k := 0;
      while k < region[2]
        invariant 0 <= k <= region[2] && n == k * region[1] && n <= |ts|
        invariant Valid()
        invariant trace == t0 + RowWrites(ts, c, host, n) && mem == Replay(m0, RowWrites(ts, c, host, n))
      {
        var j := 0;
        while j < region[1]
          invariant 0 <= j <= region[1] && n == k * region[1] + j && n <= |ts|
          invariant Valid()
          invariant trace == t0 + RowWrites(ts, c, host, n) && mem == Replay(m0, RowWrites(ts, c, host, n))
        {
          var hostAt := hostBase + hostRowPitch * j + hostSlicePitch * k;
          var offset := baseOffset + bufferRowPitch * j + bufferSlicePitch * k;
          RectRowIs(bufferOrigin, hostOrigin, region, bufferRowPitch, bufferSlicePitch, hostRowPitch, hostSlicePitch, k, j, n);
          WriteRow(host, c, hostAt, offset, region[0], ts, n, t0, m0);
          n, j := n + 1, j + 1;
        }
        MulPred(k + 1, region[1]);
        k := k + 1;
      }
    }

    /** One row of a rect read: `pocl_tce_read` of the row's device bytes
        into host memory, which extends the row reads done so far by row
        `n`. */
    method ReadRow(h: seq<Byte>, c: Chunk, hostAt: int, offset: int, len: nat,
                   ghost host: seq<Byte>, ghost ts: seq<Transfer>, ghost n: nat, ghost t0: seq<Access>)
      returns (h': seq<Byte>)
      requires Valid()
      requires RowsInHost(ts, |host|) && n < |ts| && ts[n] == Transfer(offset, hostAt, len)
      requires h == HostAfterReads(ts, c, mem, host, n) && trace == t0 + RowReads(ts, c, n)
      modifies this`trace
      ensures Valid()
      ensures h' == HostAfterReads(ts, c, mem, host, n + 1) && trace == t0 + RowReads(ts, c, n + 1)
    {
      ghost var done := RowReads(ts, c, n);
      var data := Read(c, offset, len);
      h' := Splice(h, hostAt, data);
      assert trace == t0 + (done + [HostRead(c.start + offset, len)]);
    }

    /** `pocl_tce_read_rect`: for each slice k, for each row j, read
        region[0] bytes of the chunk with `pocl_tce_read` into that row of
        host memory. Host memory ends as `HostAfterReads` says, byte by byte
        as `HostAfterReadsCovered` and `HostAfterReadsUntouched` say. */
    method ReadRect(host: seq<Byte>, c: Chunk, bufferOrigin: seq<nat>, hostOrigin: seq<nat>, region: seq<nat>,
                    bufferRowPitch: nat, bufferSlicePitch: nat, hostRowPitch: nat, hostSlicePitch: nat)
      returns (h: seq<Byte>)
      requires Valid()
      requires IsTriple(bufferOrigin) && IsTriple(hostOrigin) && IsTriple(region)
      requires RowsInHost(RectTransfers(bufferOrigin, hostOrigin, region, bufferRowPitch, bufferSlicePitch,
                                        hostRowPitch, hostSlicePitch), |host|)
      modifies this`trace
      ensures Valid()
      ensures
        var ts := RectTransfers(bufferOrigin, hostOrigin, region, bufferRowPitch, bufferSlicePitch,
                                hostRowPitch, hostSlicePitch);
        && h == HostAfterReads(ts, c, mem, host, |ts|)
        && trace == old(trace) + RowReads(ts, c, |ts|)
    {
      ghost var ts := RectTransfers(bufferOrigin, hostOrigin, region, bufferRowPitch, bufferSlicePitch,
                                    hostRowPitch, hostSlicePitch);
      ghost var t0 := trace;
      RectCount(bufferOrigin, hostOrigin, region, bufferRowPitch, bufferSlicePitch, hostRowPitch, hostSlicePitch);
      var hostBase := BaseOffset(hostOrigin, hostRowPitch, hostSlicePitch);
      var baseOffset := BaseOffset(bufferOrigin, bufferRowPitch, bufferSlicePitch);
      h := host;
      ghost var n: nat := 0;
      var k := 0;
      while k < region[2]
        invariant 0 <= k <= region[2] && n == k * region[1] && n <= |ts|
        invariant Valid()
        invariant h == HostAfterReads(ts, c, mem, host, n) && trace == t0 + RowReads(ts, c, n)
      {
        var j := 0;
        while j < region[1]
          invariant 0 <= j <= region[1] && n == k * region[1] + j && n <= |ts|
          invariant Valid()
          invariant h == HostAfterReads(ts, c, mem, host, n) && trace == t0 + RowReads(ts, c, n)
        {
          var hostAt := hostBase + hostRowPitch * j + hostSlicePitch * k;
          var offset := baseOffset + bufferRowPitch * j + bufferSlicePitch * k;
          RectRowIs(bufferOrigin, hostOrigin, region, bufferRowPitch, bufferSlicePitch, hostRowPitch, hostSlicePitch, k, j, n);
          h := ReadRow(h, c, hostAt, offset, region[0], host, ts, n, t0);
          n, j := n + 1, j + 1;
        }
        MulPred(k + 1, region[1]);
        k := k + 1;
      }
    }

    /** `free_chunk`: the chunk returns to the region it came from. */
    method FreeChunkOf(c: Chunk)
      requires Valid()
      modifies this`localMem, this`globalMem, this`trace
      ensures Valid()
      ensures trace == old(trace) + [FreeChunk(c)]
      ensures c.region == LocalMem ==> localMem == Free(old(localMem), c) && globalMem == old(globalMem)
      ensures c.region == GlobalMem ==> globalMem == Free(old(globalMem), c) && localMem == old(localMem)
      ensures localMem.live == old(localMem.live) - (if c.region == LocalMem then {c} else {})
      ensures globalMem.live == old(globalMem.live) - (if c.region == GlobalMem then {c} else {})
    {
      if c.region == LocalMem {
        localMem := Free(localMem, c);
      } else {
        globalMem := Free(globalMem, c);
      }
      Log(FreeChunk(c));
    }

    /** `pocl_tce_free`: release this device's chunk of the buffer. */
    method FreeMemObj(m: MemObject)
      requires Valid() && devId < |m.devicePtrs| && m.devicePtrs[devId].memPtr.Some?
      modifies this`localMem, this`globalMem, this`trace
      ensures Valid()
      ensures var c := m.devicePtrs[devId].memPtr.value;
        && trace == old(trace) + [FreeChunk(c)]
        && (c.region == GlobalMem ==> globalMem.live == old(globalMem.live) - {c} && localMem == old(localMem))
    {
      FreeChunkOf(m.devicePtrs[devId].memPtr.value);
    }

    // ---------------------------------------------------------------
    // Kernel launch

    /** The head of `pocl_tce_run`: a kernel that is not resident is
        loaded, the program restarted, and its metadata symbol looked up
        and cached; a resident one is only restarted and its cached address
        reused. A load failure or a missing symbol aborts. */
    method SelectKernel(cmd: RunCommand, loadOk: bool, symbol: Option<Word>) returns (r: Result<Word, AbortReason>)
      requires Valid()
      modifies this`curKernel, this`curLocalX, this`curLocalY, this`curLocalZ, this`curKernelAddr, this`trace
      ensures Valid()
      ensures old(IsNewKernel(cmd)) && !loadOk ==>
        r == Failure(LoadFailed) && trace == old(trace) + [LoadProgram] && Cache() == old(Cache())
      ensures old(IsNewKernel(cmd)) && loadOk && symbol.None? ==>
        r == Failure(SymbolNotFound) && trace == old(trace) + ResidencyTrace(true) && Cache() == old(Cache())
      ensures old(IsNewKernel(cmd)) && loadOk && symbol.Some? ==>
        && r == Success(symbol.value) && trace == old(trace) + ResidencyTrace(true)
        && Cache() == Residency(Some(cmd.kernel), cmd.localX, cmd.localY, cmd.localZ, symbol.value)
      ensures !old(IsNewKernel(cmd)) ==>
        r == Success(old(curKernelAddr)) && trace == old(trace) + ResidencyTrace(false) && Cache() == old(Cache())
      ensures r.Success? ==>
        && !IsNewKernel(cmd) && r.value == curKernelAddr
        && r.value == (if old(IsNewKernel(cmd)) then symbol.value else old(curKernelAddr))
        && trace == old(trace) + ResidencyTrace(old(IsNewKernel(cmd)))
    {
      if IsNewKernel(cmd) {
        Log(LoadProgram);
        if !loadOk {
          return Failure(LoadFailed);
        }
        Log(RestartProgram);
        if symbol.None? {
          return Failure(SymbolNotFound);
        }
        UpdateCurrentKernel(cmd, symbol.value);
        r := Success(symbol.value);
      } else {
        Log(RestartProgram);
        r := Success(curKernelAddr);
      }
    }

    /** One poll of the command slot while the device holds status `v`
        there: the host reads back exactly `v`. */
    method Poll(v: Word) returns (status: Word)
      requires Valid()
      modifies this`mem, this`trace
      ensures Valid()
      ensures status == v
      ensures trace == old(trace) + [DeviceStore(commandQueueAddr, BigEndian(v)), HostRead(commandQueueAddr, 4)]
    {
      DeviceStoresStatus(v);
      DeviceStoreReadBack(old(mem), commandQueueAddr, v, needsByteSwap);
      status := ReadWordFromDevice(commandQueueAddr);
    }

    /** One `do { } while (readWordFromDevice(commandQueueAddr) != target)`
        busy-wait, against the status values the device leaves in the slot,
        from `script[from]` on. It stops at the first sighting of `target`;
        if the script runs out first, the wait never ends. */
    method AwaitStatus(target: Word, script: seq<Word>, from: nat) returns (found: bool, next: nat)
      requires Valid() && from <= |script|
      modifies this`mem, this`trace
      ensures Valid()
      ensures from <= next <= |script|
      ensures trace == old(trace) + PollTrace(commandQueueAddr, script[from..next])
      ensures found ==> PolledUntil(script[from..next], target)
      ensures !found ==> next == |script| && forall j :: from <= j < |script| ==> script[j] != target
    {
      next := from;
      found := false;
      while !found && next < |script|
        invariant from <= next <= |script|
        invariant Valid()
        invariant trace == old(trace) + PollTrace(commandQueueAddr, script[from..next])
        invariant found ==> PolledUntil(script[from..next], target)
        invariant !found ==> forall j :: from <= j < next ==> script[j] != target
        decreases |script| - next, if found then 0 else 1
      {
        PollStep(old(trace), commandQueueAddr, script, from, next, target);
        var status := Poll(script[next]);
        next := next + 1;
        found := status == target;
      }
    }

    /** One argument-marshalling loop of `pocl_tce_run`, over
        `all[lo..hi]`: a `__local` argument takes a fresh local chunk, a
        scalar a fresh global chunk holding its value, and a pointer takes
        nothing (null stays 0). A failed allocation aborts. */
    method MarshalRange(all: seq<Arg>, lo: nat, hi: nat, cs0: seq<Option<Chunk>>, temps0: seq<Chunk>, ws0: seq<Word>,
                        ghost t0: seq<Access>, ghost liveL: set<Chunk>, ghost liveG: set<Chunk>)
      returns (cs: seq<Option<Chunk>>, temps: seq<Chunk>, ws: seq<Word>, failed: Option<AbortReason>)
      requires Valid() && lo <= hi <= |all|
      requires Marshalled(2, all[..lo], cs0, temps0, ws0, t0, liveL, liveG,
                            trace, localMem.live, globalMem.live, needsByteSwap)
      requires forall x {:trigger x in liveL} :: x in liveL ==> x.region == LocalMem
      requires forall x {:trigger x in liveG} :: x in liveG ==> x.region == GlobalMem
      modifies this`localMem, this`globalMem, this`mem, this`trace
      ensures Valid()
      ensures failed.None? ==>
        Marshalled(2, all[..hi], cs, temps, ws, t0, liveL, liveG, trace, localMem.live, globalMem.live, needsByteSwap)
      ensures failed == None || failed == Some(OutOfLocalMemory) || failed == Some(OutOfGlobalMemory)
    {
      cs, temps, ws, failed := cs0, temps0, ws0, None;
      var i := lo;
      while i < hi
        invariant lo <= i <= hi && failed.None?
        invariant Valid()
        invariant Marshalled(2, all[..i], cs, temps, ws, t0, liveL, liveG,
                               trace, localMem.live, globalMem.live, needsByteSwap)
      {
        cs, temps, ws, failed := MarshalOne(all, i, cs, temps, ws, t0, liveL, liveG);
        if failed.Some? {
          return;
        }
        i := i + 1;
      }
    }

    /** The body of a marshalling loop for one argument `a`. */
    method MarshalOne(all: seq<Arg>, i: nat, cs0: seq<Option<Chunk>>, temps0: seq<Chunk>, ws0: seq<Word>,
                      ghost t0: seq<Access>, ghost liveL: set<Chunk>, ghost liveG: set<Chunk>)
      returns (cs: seq<Option<Chunk>>, temps: seq<Chunk>, ws: seq<Word>, failed: Option<AbortReason>)
      requires Valid() && i < |all|
      requires Marshalled(2, all[..i], cs0, temps0, ws0, t0, liveL, liveG, trace, localMem.live, globalMem.live, needsByteSwap)
      requires forall x {:trigger x in liveL} :: x in liveL ==> x.region == LocalMem
      requires forall x {:trigger x in liveG} :: x in liveG ==> x.region == GlobalMem
      modifies this`localMem, this`globalMem, this`mem, this`trace
      ensures Valid()
      ensures failed.None? ==>
        Marshalled(2, all[..i + 1], cs, temps, ws, t0, liveL, liveG, trace, localMem.live, globalMem.live, needsByteSwap)
      ensures failed == None || failed == Some(OutOfLocalMemory) || failed == Some(OutOfGlobalMemory)
      ensures failed.Some? ==>
        && (all[i].LocalArg? ==> failed.value == OutOfLocalMemory)
        && (!all[i].LocalArg? ==> failed.value == OutOfGlobalMemory)
    {
      var a := all[i];
      var args := all[..i];
      MarshalledIs(args, cs0, temps0, ws0, t0, liveL, liveG, trace, localMem.live, globalMem.live, needsByteSwap);
      assert all[..i + 1] == args + [a];
      var c: Option<Chunk>;
      var w: Word;
      ghost var t := trace;
      ghost var localLive, globalLive := localMem.live, globalMem.live;
      failed := None;
      c := None;
      cs, temps, ws := cs0, temps0, ws0;
      if a.LocalArg? {
        c := MallocLocal(a.size);
        if c.None? {
          return cs, temps, ws, Some(OutOfLocalMemory);
        }
        w := ByteSwap(ToWord(c.value.start), needsByteSwap);
        temps := temps + [c.value];
      } else if a.PointerArg? {
        w := if a.buffer.None? then 0 else ByteSwap(ToWord(a.buffer.value.start), needsByteSwap);
      } else {
        c := Malloc(ClMemCopyHostPtr, |a.value|, Some(a.value));
        if c.None? {
          return cs, temps, ws, Some(OutOfGlobalMemory);
        }
        w := ByteSwap(ToWord(c.value.start), needsByteSwap);
        temps := temps + [c.value];
      }
      if c.None? {
        MarshalStateSnocNone(args, cs0, temps0, ws0, t0, liveL, liveG, t, localLive, globalLive, needsByteSwap, a);
      } else {
        MarshalStateSnocSome(args, cs0, temps0, ws0, t0, liveL, liveG, t, localLive, globalLive, needsByteSwap,
                             a, c.value, localMem.live, globalMem.live);
      }
      cs := cs0 + [c];
      ws := ws0 + [w];
      MarshalledIs(all[..i + 1], cs, temps, ws, t0, liveL, liveG, trace, localMem.live, globalMem.live, needsByteSwap);
    }

    /** The closing loop of `pocl_tce_run`: every temporary goes back to
        its region, in push order. */
    method FreeTemps(temps: seq<Chunk>)
      requires Valid()
      modifies this`localMem, this`globalMem, this`trace
      ensures Valid()
      ensures trace == old(trace) + FreeTrace(temps)
      ensures localMem.live == old(localMem.live) - InRegion(temps, LocalMem)
      ensures globalMem.live == old(globalMem.live) - InRegion(temps, GlobalMem)
    {
      var i := 0;
      while i < |temps|
        invariant 0 <= i <= |temps| && Valid()
        invariant trace == old(trace) + FreeTrace(temps[..i])
        invariant localMem.live == old(localMem.live) - InRegion(temps[..i], LocalMem)
        invariant globalMem.live == old(globalMem.live) - InRegion(temps[..i], GlobalMem)
      {
        FreeStep(old(trace), temps, i, old(localMem.live), old(globalMem.live));
        FreeChunkOf(temps[i]);
        i := i + 1;
      }
      assert temps[..|temps|] == temps;
    }

    /** Steps 1 to 5 of the command-slot handshake and the freeing of the
        temporaries: wait for FREE; write the whole record (status FREE);
        write READY as a separate last word; wait for FINISHED; write FREE;
        only then free the temporaries. A wait whose status never shows
        leaves the launch hung with nothing freed. */
    method Handshake(dc: ExecCmd, temps: seq<Chunk>, script: seq<Word>) returns (outcome: RunOutcome, k1: nat, k2: nat)
      requires Valid() && WellFormed(dc)
      modifies this`mem, this`trace, this`localMem, this`globalMem
      ensures Valid()
      ensures outcome == Completed || outcome == Hung
      ensures k1 <= k2 <= |script|
      ensures outcome == Completed ==>
        && PolledUntil(script[..k1], KstFree) && PolledUntil(script[k1..k2], KstFinished)
        && trace == old(trace) + HandshakeTrace(commandQueueAddr, script[..k1], dc, script[k1..k2], temps, needsByteSwap)
        && localMem.live == old(localMem.live) - InRegion(temps, LocalMem)
        && globalMem.live == old(globalMem.live) - InRegion(temps, GlobalMem)
        && ReadWord(mem, commandQueueAddr, needsByteSwap) == KstFree
      ensures outcome == Hung ==>
        && localMem == old(localMem) && globalMem == old(globalMem)
        && ((forall j :: 0 <= j < |script| ==> script[j] != KstFree) ||
            (PolledUntil(script[..k1], KstFree) && forall j :: k1 <= j < |script| ==> script[j] != KstFinished))
    {
      var done;
      done, k1, k2 := Exchange(dc, script);
      if !done {
        return Hung, k1, k2;
      }
      FreeTemps(temps);
      HandshakeTraceAfter(old(trace), commandQueueAddr, script[..k1], dc, script[k1..k2], temps, needsByteSwap);
      outcome := Completed;
    }

    /** Steps 1 to 5 of the handshake, up to the final FREE write. */
    method Exchange(dc: ExecCmd, script: seq<Word>) returns (done: bool, k1: nat, k2: nat)
      requires Valid() && WellFormed(dc)
      modifies this`mem, this`trace
      ensures Valid()
      ensures k1 <= k2 <= |script|
      ensures done ==>
        && PolledUntil(script[..k1], KstFree) && PolledUntil(script[k1..k2], KstFinished)
        && trace == old(trace) + PollTrace(commandQueueAddr, script[..k1])
                   + [HostWrite(commandQueueAddr, CommandBytes(dc, needsByteSwap)),
                      HostWrite(commandQueueAddr, WordImage(KstReady, needsByteSwap))]
                   + PollTrace(commandQueueAddr, script[k1..k2])
                   + [HostWrite(commandQueueAddr, WordImage(KstFree, needsByteSwap))]
        && ReadWord(mem, commandQueueAddr, needsByteSwap) == KstFree
      ensures !done ==>
        (forall j :: 0 <= j < |script| ==> script[j] != KstFree) ||
        (PolledUntil(script[..k1], KstFree) && forall j :: k1 <= j < |script| ==> script[j] != KstFinished)
    {
      var found;
      found, k1 := AwaitStatus(KstFree, script, 0);
      assert script[0..k1] == script[..k1];
      if !found {
        return false, k1, k1;
      }
      ghost var t1 := trace;
      CopyHostToDevice(CommandBytes(dc, needsByteSwap), commandQueueAddr);
      WriteWordToDevice(commandQueueAddr, KstReady);
      LogTwo(t1, HostWrite(commandQueueAddr, CommandBytes(dc, needsByteSwap)),
             HostWrite(commandQueueAddr, WordImage(KstReady, needsByteSwap)));
      found, k2 := AwaitStatus(KstFinished, script, k1);
      if !found {
        return false, k1, k2;
      }
      WriteWordToDevice(commandQueueAddr, KstFree);
      done := true;
    }

    /** `pocl_tce_run`. `stale` is what the uninitialised record holds in
        its argument slots. On completion: the kernel is resident; the
        record written is the launch record of this command with the
        argument words of the chunks taken; the log is the kernel selection, the
        marshalling and the handshake, in that order; every temporary was
        fresh and has been freed, so both regions hold what they held
        before; and the slot reads FREE again. */
    method Run(cmd: RunCommand, loadOk: bool, symbol: Option<Word>, script: seq<Word>, stale: seq<Word>)
      returns (outcome: RunOutcome, cs: seq<Option<Chunk>>, dc: ExecCmd, k1: nat, k2: nat)
      requires Valid() && WellFormedRun(cmd) && |stale| == MaxKernelArgs
      modifies this`curKernel, this`curLocalX, this`curLocalY, this`curLocalZ, this`curKernelAddr
      modifies this`trace, this`mem, this`localMem, this`globalMem
      ensures Valid()
      ensures outcome == Aborted(LoadFailed) <==> old(IsNewKernel(cmd)) && !loadOk
      ensures outcome == Aborted(SymbolNotFound) <==> old(IsNewKernel(cmd)) && loadOk && symbol.None?
      ensures !old(IsNewKernel(cmd)) ==> Cache() == old(Cache())
      ensures outcome == Completed ==>
        && !IsNewKernel(cmd)
        && curKernelAddr == (if old(IsNewKernel(cmd)) then symbol.value else old(curKernelAddr))
        && CompletedLaunch(cmd, curKernelAddr, cs, dc, script, k1, k2, commandQueueAddr,
                           old(trace) + ResidencyTrace(old(IsNewKernel(cmd))), trace,
                           old(localMem.live), old(globalMem.live), localMem.live, globalMem.live, needsByteSwap)
        && ReadWord(mem, commandQueueAddr, needsByteSwap) == KstFree
    {
      dc := ExecCmd(0, 0, [], 0, [], []);
      cs, k1, k2 := [], 0, 0;
      var selected := SelectKernel(cmd, loadOk, symbol);
      if selected.Failure? {
        return Aborted(selected.error), cs, dc, k1, k2;
      }
      ghost var t0, liveL0, liveG0 := trace, localMem.live, globalMem.live;
      assert t0 == old(trace) + ResidencyTrace(old(IsNewKernel(cmd)));
      assert liveL0 == old(localMem.live) && liveG0 == old(globalMem.live);
      outcome, cs, dc, k1, k2 := LaunchKernel(cmd, selected.value, script, stale, t0, liveL0, liveG0);
      if outcome == Completed {
        assert curKernelAddr == selected.value;
      }
    }

    /** `pocl_tce_run` once the kernel address is known: marshal the
        arguments, fill in the record, and run the handshake. */
    method LaunchKernel(cmd: RunCommand, kernelAddr: Word, script: seq<Word>, stale: seq<Word>,
                        ghost t0: seq<Access>, ghost liveL0: set<Chunk>, ghost liveG0: set<Chunk>)
      returns (outcome: RunOutcome, cs: seq<Option<Chunk>>, dc: ExecCmd, k1: nat, k2: nat)
      requires Valid() && WellFormedRun(cmd) && |stale| == MaxKernelArgs
      requires trace == t0 && localMem.live == liveL0 && globalMem.live == liveG0
      modifies this`trace, this`mem, this`localMem, this`globalMem
      ensures Valid()
      ensures Cache() == old(Cache())
      ensures outcome.Aborted? ==> outcome.reason == OutOfLocalMemory || outcome.reason == OutOfGlobalMemory
      ensures outcome == Completed ==>
        && CompletedLaunch(cmd, kernelAddr, cs, dc, script, k1, k2, commandQueueAddr, t0, trace,
                           liveL0, liveG0, localMem.live, globalMem.live, needsByteSwap)
        && ReadWord(mem, commandQueueAddr, needsByteSwap) == KstFree
    {
      dc := ExecCmd(0, 0, [], 0, [], []);
      k1, k2 := 0, 0;
      var temps, ws, failed;
      cs, temps, ws, failed := MarshalArgs(cmd);
      if failed.Some? {
        return Aborted(failed.value), cs, dc, k1, k2;
      }
      ghost var t1, liveL1, liveG1 := trace, localMem.live, globalMem.live;
      assert MarshalState(AllArgs(cmd), cs, temps, ws, old(trace), old(localMem.live), old(globalMem.live),
                          t1, liveL1, liveG1, needsByteSwap);
      dc := BuildRecord(cmd, kernelAddr, ws, stale);
      outcome, k1, k2 := Handshake(dc, temps, script);
      if outcome == Completed {
        LaunchCompletes(cmd, kernelAddr, cs, temps, ws, dc, script, k1, k2, commandQueueAddr,
                        old(trace), t1, trace, old(localMem.live), old(globalMem.live), liveL1, liveG1,
                        localMem.live, globalMem.live, needsByteSwap);
      }
    }

    /** Both marshalling loops of `pocl_tce_run`: the declared arguments,
        then the automatic local buffers. */
    method MarshalArgs(cmd: RunCommand) returns (cs: seq<Option<Chunk>>, temps: seq<Chunk>, ws: seq<Word>, failed: Option<AbortReason>)
      requires Valid() && WellFormedRun(cmd)
      modifies this`localMem, this`globalMem, this`mem, this`trace
      ensures Valid()
      ensures failed.None? ==>
        MarshalState(AllArgs(cmd), cs, temps, ws, old(trace), old(localMem.live), old(globalMem.live),
                     trace, localMem.live, globalMem.live, needsByteSwap)
      ensures failed.Some? ==> failed.value == OutOfLocalMemory || failed.value == OutOfGlobalMemory
    {
      var all := AllArgs(cmd);
      assert all[..0] == [];
      MarshalledIs([], [], [], [], old(trace), old(localMem.live), old(globalMem.live), trace, localMem.live, globalMem.live, needsByteSwap);
      cs, temps, ws, failed := MarshalRange(all, 0, |cmd.args|, [], [], [], old(trace), old(localMem.live), old(globalMem.live));
      if failed.Some? {
        return;
      }
      cs, temps, ws, failed := MarshalRange(all, |cmd.args|, |all|, cs, temps, ws, old(trace), old(localMem.live), old(globalMem.live));
      assert all[..|all|] == all;
      MarshalledIs(all, cs, temps, ws, old(trace), old(localMem.live), old(globalMem.live), trace, localMem.live, globalMem.live, needsByteSwap);
    }

    /** `dev_cmd` filled in field by field: kernel address, argument
        words, geometry, and status FREE, each swapped per the device. The
        record starts out uninitialised, its argument slots holding
        `stale`; only the slots of actual arguments are overwritten. */
    method BuildRecord(cmd: RunCommand, kernelAddr: Word, ws: seq<Word>, stale: seq<Word>) returns (dc: ExecCmd)
      requires WellFormedRun(cmd) && |ws| <= MaxKernelArgs && |stale| == MaxKernelArgs
      ensures dc == LaunchRecord(cmd, kernelAddr, ws, stale, needsByteSwap)
      ensures |dc.args| == MaxKernelArgs && dc == LaunchRecord(cmd, kernelAddr, ws, dc.args, needsByteSwap)
    {
      LaunchRecordOwnTail(cmd, kernelAddr, ws, stale, needsByteSwap);
      dc := ExecCmd(0, ByteSwap(kernelAddr, needsByteSwap), ws + stale[|ws|..], 0, [0, 0, 0], [0, 0, 0]);
      dc := dc.(workDim := ByteSwap(cmd.workDim, needsByteSwap));
      dc := dc.(numGroups := [ByteSwap(cmd.numGroups[0], needsByteSwap), ByteSwap(cmd.numGroups[1], needsByteSwap),
                              ByteSwap(cmd.numGroups[2], needsByteSwap)]);
      dc := dc.(globalOffset := [ByteSwap(cmd.globalOffset[0], needsByteSwap), ByteSwap(cmd.globalOffset[1], needsByteSwap),
                                 ByteSwap(cmd.globalOffset[2], needsByteSwap)]);
      dc := dc.(status := ByteSwap(KstFree, needsByteSwap));
    }
  }
}
