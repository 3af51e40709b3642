/**
 * What one kernel launch (`pocl_tce_run`) does, as values: the launch
 * request, the argument words it marshals, the chunks it takes, and the
 * accesses it makes during the command-slot handshake.
 */
module Launch {
  import opened Wrappers
  import opened Words
  import opened Allocator
  import opened DeviceMemory
  import opened ExecCommand

  /** One kernel argument as `pocl_tce_run` sees it: a `__local` argument
      of some size, a pointer (null, or the chunk of the buffer it names on
      this device), or a scalar value copied into device memory. */
  datatype Arg =
    | LocalArg(size: nat)
    | PointerArg(buffer: Option<Chunk>)
    | ScalarArg(value: seq<Byte>)

  /** `_cl_command_run`: kernel identity, local work-group shape, declared
      arguments, sizes of the automatic local buffers, and geometry. */
  datatype RunCommand = RunCommand(
    kernel: nat,
    localX: Word, localY: Word, localZ: Word,
    args: seq<Arg>,
    autoLocals: seq<nat>,
    workDim: Word,
    numGroups: seq<Word>,
    globalOffset: seq<Word>)

  predicate WellFormedRun(cmd: RunCommand)
  {
    |cmd.numGroups| == 3 && |cmd.globalOffset| == 3 &&
    |cmd.args| + |cmd.autoLocals| <= MaxKernelArgs
  }

  /** The automatic local buffers are allocated like `__local` arguments. */
  function AllArgs(cmd: RunCommand): (r: seq<Arg>)
    ensures |r| == |cmd.args| + |cmd.autoLocals|
    ensures forall i :: 0 <= i < |cmd.args| ==> r[i] == cmd.args[i]
    ensures forall i :: 0 <= i < |cmd.autoLocals| ==> r[|cmd.args| + i] == LocalArg(cmd.autoLocals[i])
  {
    cmd.args + seq(|cmd.autoLocals|, i requires 0 <= i < |cmd.autoLocals| => LocalArg(cmd.autoLocals[i]))
  }

  /** Local and scalar arguments take a temporary chunk; pointers do not. */
  predicate TakesChunk(a: Arg)
  {
    !a.PointerArg?
  }

  /** The bytes an argument's temporary chunk is asked for: `al->size` for
      a `__local` argument, the size of its value for a scalar. */
  function ChunkSize(a: Arg): nat
  {
    match a
    case LocalArg(size) => size
    case ScalarArg(value) => |value|
    case PointerArg(_) => 0
  }

  /** The chunks an argument list took, position by position: each from
      the argument's region and of the size requested for it. */
  predicate ChunksFit(args: seq<Arg>, cs: seq<Option<Chunk>>)
  {
    |args| == |cs| &&
    forall i :: 0 <= i < |args| ==>
      (TakesChunk(args[i]) <==> cs[i].Some?) &&
      (cs[i].Some? ==> cs[i].value.region == (if args[i].LocalArg? then LocalMem else GlobalMem)
                       && cs[i].value.size == ChunkSize(args[i]))
  }

  /** The word placed in `dev_cmd.args[i]`: 0 for a null pointer, otherwise
      the 32-bit start address of the argument's chunk, byte-swapped. */
  function ArgWord(a: Arg, c: Option<Chunk>, needsByteSwap: bool): Word
    requires TakesChunk(a) <==> c.Some?
  {
    match a
    case PointerArg(None) => 0
    case PointerArg(Some(b)) => ByteSwap(ToWord(b.start), needsByteSwap)
    case _ => ByteSwap(ToWord(c.value.start), needsByteSwap)
  }

  /** `dev_cmd.args[0 ..]` for an argument list and the chunks it took. */
  function ArgWords(args: seq<Arg>, cs: seq<Option<Chunk>>, needsByteSwap: bool): (ws: seq<Word>)
    requires ChunksFit(args, cs)
    ensures |ws| == |args|
    ensures forall i :: 0 <= i < |args| ==> ws[i] == ArgWord(args[i], cs[i], needsByteSwap)
    decreases |args|
  {
    if args == [] then []
    else
      var n := |args| - 1;
      assert ChunksFit(args[..n], cs[..n]);
      ArgWords(args[..n], cs[..n], needsByteSwap) + [ArgWord(args[n], cs[n], needsByteSwap)]
  }

  predicate Distinct(ts: seq<Chunk>)
  {
    forall i, j :: 0 <= i < j < |ts| ==> ts[i] != ts[j]
  }

  /** The chunks of `ts` that belong to one region. */
  function InRegion(ts: seq<Chunk>, kind: RegionKind): set<Chunk>
  {
    set t | t in ts && t.region == kind
  }

  datatype AbortReason =
    | LoadFailed
    | SymbolNotFound
    | OutOfLocalMemory
    | OutOfGlobalMemory

  /** How a launch ends: the device reported FINISHED and the slot was
      released; the driver aborted; or the device never showed the status a
      busy-wait was waiting for within the observed status values. */
  datatype RunOutcome = Completed | Aborted(reason: AbortReason) | Hung

  /** The accesses marshalling one argument makes. */
  function StepTrace(a: Arg, c: Option<Chunk>): seq<Access>
  {
    match c
    case None => []
    case Some(ch) =>
      match a
      case ScalarArg(v) => [AllocChunk(ch), HostWrite(ch.start, v)]
      case _ => [AllocChunk(ch)]
  }

  /** The accesses marshalling an argument list makes, in argument order. */
  function MarshalTrace(args: seq<Arg>, cs: seq<Option<Chunk>>): seq<Access>
    requires |args| == |cs|
    decreases |args|
  {
    if args == [] then []
    else MarshalTrace(args[..|args| - 1], cs[..|cs| - 1]) + StepTrace(args[|args| - 1], cs[|cs| - 1])
  }

  /** The log after marshalling an argument list, starting from `t0`. */
  function MarshalLog(t0: seq<Access>, args: seq<Arg>, cs: seq<Option<Chunk>>): seq<Access>
    requires |args| == |cs|
    decreases |args|
  {
    if args == [] then t0
    else MarshalLog(t0, args[..|args| - 1], cs[..|cs| - 1]) + StepTrace(args[|args| - 1], cs[|cs| - 1])
  }

  /** The log after marshalling is the log before followed by the
      marshalling's own accesses. */
  lemma {:induction false} MarshalLogIsAppend(t0: seq<Access>, args: seq<Arg>, cs: seq<Option<Chunk>>)
    requires |args| == |cs|
    ensures MarshalLog(t0, args, cs) == t0 + MarshalTrace(args, cs)
    decreases |args|
  {
    if args != [] {
      var n := |args| - 1;
      MarshalLogIsAppend(t0, args[..n], cs[..n]);
      assert t0 + MarshalTrace(args[..n], cs[..n]) + StepTrace(args[n], cs[n])
          == t0 + (MarshalTrace(args[..n], cs[..n]) + StepTrace(args[n], cs[n]));
    } else {
      assert t0 + [] == t0;
    }
  }

  /** `tempChunks`: the chunks taken, in the order they were pushed. */
  function Temps(cs: seq<Option<Chunk>>): seq<Chunk>
    decreases |cs|
  {
    if cs == [] then []
    else Temps(cs[..|cs| - 1]) + (if cs[|cs| - 1].Some? then [cs[|cs| - 1].value] else [])
  }

  /** The chunks allocated in a stretch of accesses, in order. */
  function AllocsOf(t: seq<Access>): seq<Chunk>
    decreases |t|
  {
    if t == [] then []
    else AllocsOf(t[..|t| - 1]) + (if t[|t| - 1].AllocChunk? then [t[|t| - 1].chunk] else [])
  }

  /** The chunks freed in a stretch of accesses, in order. */
  function FreesOf(t: seq<Access>): seq<Chunk>
    decreases |t|
  {
    if t == [] then []
    else FreesOf(t[..|t| - 1]) + (if t[|t| - 1].FreeChunk? then [t[|t| - 1].chunk] else [])
  }

  /** The closing loop over `tempChunks`. */
  function FreeTrace(ts: seq<Chunk>): (t: seq<Access>)
    ensures |t| == |ts| && forall i :: 0 <= i < |ts| ==> t[i] == FreeChunk(ts[i])
    decreases |ts|
  {
    if ts == [] then [] else FreeTrace(ts[..|ts| - 1]) + [FreeChunk(ts[|ts| - 1])]
  }

  /** One poll: the device's current status value lands in the slot (in the
      device's byte order), then the host reads the slot word. */
  function PollTrace(slot: int, vs: seq<Word>): seq<Access>
    decreases |vs|
  {
    if vs == [] then []
    else PollTrace(slot, vs[..|vs| - 1]) + [DeviceStore(slot, BigEndian(vs[|vs| - 1])), HostRead(slot, 4)]
  }

  /** One more poll of a busy-wait that has not yet seen `target`: the log
      grows by that poll, and if it shows `target` the wait stops there. */
  lemma PollStep(pre: seq<Access>, slot: int, script: seq<Word>, from: nat, next: nat, target: Word)
    requires from <= next < |script|
    requires forall j :: from <= j < next ==> script[j] != target
    ensures pre + PollTrace(slot, script[from..next + 1])
            == pre + PollTrace(slot, script[from..next]) + [DeviceStore(slot, BigEndian(script[next])), HostRead(slot, 4)]
    ensures script[next] == target ==> PolledUntil(script[from..next + 1], target)
  {
    assert script[from..next + 1] == script[from..next] + [script[next]];
    PollTraceSnoc(slot, script[from..next], script[next]);
  }

  /** A busy-wait that stopped at its first sighting of `target`. */
  predicate PolledUntil(vs: seq<Word>, target: Word)
  {
    |vs| > 0 && vs[|vs| - 1] == target && forall j :: 0 <= j < |vs| - 1 ==> vs[j] != target
  }

  /** `dev_cmd` as filled in before the bulk write. The record lives
      uninitialised on the stack and only the slots of actual arguments are
      written, so the remaining argument slots keep whatever `stale` held;
      every other field is written, swapped per the device, and swapping it
      back gives the command's value, with status FREE. */
  function LaunchRecord(cmd: RunCommand, kernelAddr: Word, argWords: seq<Word>, stale: seq<Word>,
                        needsByteSwap: bool): (dc: ExecCmd)
    requires WellFormedRun(cmd) && |argWords| <= MaxKernelArgs && |stale| == MaxKernelArgs
    ensures WellFormed(dc)
  {
    ExecCmd(
      ByteSwap(KstFree, needsByteSwap),
      ByteSwap(kernelAddr, needsByteSwap),
      argWords + stale[|argWords|..],
      ByteSwap(cmd.workDim, needsByteSwap),
      [ByteSwap(cmd.numGroups[0], needsByteSwap), ByteSwap(cmd.numGroups[1], needsByteSwap),
       ByteSwap(cmd.numGroups[2], needsByteSwap)],
      [ByteSwap(cmd.globalOffset[0], needsByteSwap), ByteSwap(cmd.globalOffset[1], needsByteSwap),
       ByteSwap(cmd.globalOffset[2], needsByteSwap)])
  }

  /** What the launch record holds: the argument words in their slots and
      the stale words in the rest; swapping the other fields back gives
      status FREE, the kernel address and the command's geometry. */
  lemma LaunchRecordFields(cmd: RunCommand, kernelAddr: Word, argWords: seq<Word>, stale: seq<Word>,
                           needsByteSwap: bool)
    requires WellFormedRun(cmd) && |argWords| <= MaxKernelArgs && |stale| == MaxKernelArgs
    ensures
      var dc := LaunchRecord(cmd, kernelAddr, argWords, stale, needsByteSwap);
      && (forall i :: 0 <= i < |argWords| ==> dc.args[i] == argWords[i])
      && (forall i :: |argWords| <= i < MaxKernelArgs ==> dc.args[i] == stale[i])
      && ByteSwap(dc.status, needsByteSwap) == KstFree
      && ByteSwap(dc.kernel, needsByteSwap) == kernelAddr
      && ByteSwap(dc.workDim, needsByteSwap) == cmd.workDim
      && (forall i :: 0 <= i < 3 ==> ByteSwap(dc.numGroups[i], needsByteSwap) == cmd.numGroups[i])
      && (forall i :: 0 <= i < 3 ==> ByteSwap(dc.globalOffset[i], needsByteSwap) == cmd.globalOffset[i])
  {
    ByteSwapInvolutive(KstFree, needsByteSwap);
    ByteSwapInvolutive(kernelAddr, needsByteSwap);
    ByteSwapInvolutive(cmd.workDim, needsByteSwap);
    forall i | 0 <= i < 3
      ensures ByteSwap(ByteSwap(cmd.numGroups[i], needsByteSwap), needsByteSwap) == cmd.numGroups[i]
      ensures ByteSwap(ByteSwap(cmd.globalOffset[i], needsByteSwap), needsByteSwap) == cmd.globalOffset[i]
    {
      ByteSwapInvolutive(cmd.numGroups[i], needsByteSwap);
      ByteSwapInvolutive(cmd.globalOffset[i], needsByteSwap);
    }
  }

  /** Refilling a launch record over its own argument slots gives it back:
      the record does not depend on where its stale slots came from. */
  lemma LaunchRecordOwnTail(cmd: RunCommand, kernelAddr: Word, argWords: seq<Word>, stale: seq<Word>,
                            needsByteSwap: bool)
    requires WellFormedRun(cmd) && |argWords| <= MaxKernelArgs && |stale| == MaxKernelArgs
    ensures
      var dc := LaunchRecord(cmd, kernelAddr, argWords, stale, needsByteSwap);
      dc == LaunchRecord(cmd, kernelAddr, argWords, dc.args, needsByteSwap)
  {
    var dc := LaunchRecord(cmd, kernelAddr, argWords, stale, needsByteSwap);
    assert dc.args[|argWords|..] == stale[|argWords|..];
  }

  /** Steps 1 to 5 of the handshake, followed by the freeing of the
      temporaries. */
  function HandshakeTrace(slot: int, toFree: seq<Word>, dc: ExecCmd, toFinish: seq<Word>,
                          temps: seq<Chunk>, needsByteSwap: bool): seq<Access>
    requires WellFormed(dc)
  {
    PollTrace(slot, toFree)
    + [HostWrite(slot, CommandBytes(dc, needsByteSwap)), HostWrite(slot, WordImage(KstReady, needsByteSwap))]
    + PollTrace(slot, toFinish)
    + [HostWrite(slot, WordImage(KstFree, needsByteSwap))]
    + FreeTrace(temps)
  }

  /** The host writes of a stretch of accesses, in order. */
  function HostWritesOf(t: seq<Access>): seq<Access>
    decreases |t|
  {
    if t == [] then []
    else HostWritesOf(t[..|t| - 1]) + (if t[|t| - 1].HostWrite? then [t[|t| - 1]] else [])
  }

  lemma {:induction false} AllocsOfConcat(s: seq<Access>, t: seq<Access>)
    ensures AllocsOf(s + t) == AllocsOf(s) + AllocsOf(t)
    ensures FreesOf(s + t) == FreesOf(s) + FreesOf(t)
    ensures HostWritesOf(s + t) == HostWritesOf(s) + HostWritesOf(t)
    decreases |t|
  {
    if t != [] {
      var t' := t[..|t| - 1];
      assert (s + t)[..|s + t| - 1] == s + t';
      AllocsOfConcat(s, t');
    } else {
      assert s + t == s;
    }
  }

  lemma OfOne(a: Access)
    ensures AllocsOf([a]) == (if a.AllocChunk? then [a.chunk] else [])
    ensures FreesOf([a]) == (if a.FreeChunk? then [a.chunk] else [])
    ensures HostWritesOf([a]) == (if a.HostWrite? then [a] else [])
  {
    assert [a][..0] == [];
  }

  lemma OfTwo(a: Access, b: Access)
    ensures AllocsOf([a, b]) == AllocsOf([a]) + AllocsOf([b])
    ensures FreesOf([a, b]) == FreesOf([a]) + FreesOf([b])
    ensures HostWritesOf([a, b]) == HostWritesOf([a]) + HostWritesOf([b])
  {
    AllocsOfConcat([a], [b]);
    assert [a] + [b] == [a, b];
  }

  /** Marshalling one argument allocates the chunk it took, if any, and
      frees nothing. */
  lemma StepAllocs(a: Arg, c: Option<Chunk>)
    ensures AllocsOf(StepTrace(a, c)) == (if c.Some? then [c.value] else [])
    ensures FreesOf(StepTrace(a, c)) == []
  {
    if c.Some? {
      OfOne(AllocChunk(c.value));
      if a.ScalarArg? {
        OfOne(HostWrite(c.value.start, a.value));
        OfTwo(AllocChunk(c.value), HostWrite(c.value.start, a.value));
      }
    }
  }

  /** Marshalling allocates exactly the temporaries, in push order, and
      frees nothing. */
  lemma {:induction false} MarshalAllocatesTemps(args: seq<Arg>, cs: seq<Option<Chunk>>)
    requires |args| == |cs|
    ensures AllocsOf(MarshalTrace(args, cs)) == Temps(cs)
    ensures FreesOf(MarshalTrace(args, cs)) == []
    decreases |args|
  {
    if args != [] {
      var n := |args| - 1;
      MarshalAllocatesTemps(args[..n], cs[..n]);
      AllocsOfConcat(MarshalTrace(args[..n], cs[..n]), StepTrace(args[n], cs[n]));
      StepAllocs(args[n], cs[n]);
    }
  }

  /** The closing loop frees exactly the given chunks and allocates none. */
  lemma {:induction false} FreeTraceFrees(ts: seq<Chunk>)
    ensures FreesOf(FreeTrace(ts)) == ts
    ensures AllocsOf(FreeTrace(ts)) == []
    ensures HostWritesOf(FreeTrace(ts)) == []
    decreases |ts|
  {
    if ts != [] {
      FreeTraceFrees(ts[..|ts| - 1]);
      assert FreeTrace(ts)[..|ts| - 1] == FreeTrace(ts[..|ts| - 1]);
    }
  }

  /** Polling only reads: it writes, allocates and frees nothing. */
  lemma {:induction false} PollTraceIsQuiet(slot: int, vs: seq<Word>)
    ensures HostWritesOf(PollTrace(slot, vs)) == []
    ensures AllocsOf(PollTrace(slot, vs)) == [] && FreesOf(PollTrace(slot, vs)) == []
    decreases |vs|
  {
    if vs != [] {
      var p := PollTrace(slot, vs[..|vs| - 1]);
      var tail := [DeviceStore(slot, BigEndian(vs[|vs| - 1])), HostRead(slot, 4)];
      PollTraceIsQuiet(slot, vs[..|vs| - 1]);
      AllocsOfConcat(p, tail);
      OfOne(tail[0]);
      OfOne(tail[1]);
      OfTwo(tail[0], tail[1]);
    }
  }

  lemma QuietAround(p1: seq<Access>, w: Access, r: Access, p2: seq<Access>, e: Access, f: seq<Access>)
    requires HostWritesOf(p1) == [] && AllocsOf(p1) == [] && FreesOf(p1) == []
    requires HostWritesOf(p2) == [] && AllocsOf(p2) == [] && FreesOf(p2) == []
    requires HostWritesOf(f) == [] && AllocsOf(f) == []
    requires w.HostWrite? && r.HostWrite? && e.HostWrite?
    ensures HostWritesOf(p1 + [w, r] + p2 + [e] + f) == [w, r, e]
    ensures FreesOf(p1 + [w, r] + p2 + [e] + f) == FreesOf(f)
    ensures AllocsOf(p1 + [w, r] + p2 + [e] + f) == []
  {
    OfOne(w);
    OfOne(r);
    OfTwo(w, r);
    OfOne(e);
    WritesAround(p1, [w, r], p2, [e], f);
    AllocsAround(p1, [w, r], p2, [e], f);
    FreesAround(p1, [w, r], p2, [e], f);
  }

  lemma WritesAround(p1: seq<Access>, a: seq<Access>, p2: seq<Access>, b: seq<Access>, f: seq<Access>)
    requires HostWritesOf(p1) == [] && HostWritesOf(p2) == [] && HostWritesOf(f) == []
    ensures HostWritesOf(p1 + a + p2 + b + f) == HostWritesOf(a) + HostWritesOf(b)
  {
    AllocsOfConcat(p1, a);
    AllocsOfConcat(p1 + a, p2);
    AllocsOfConcat(p1 + a + p2, b);
    AllocsOfConcat(p1 + a + p2 + b, f);
  }

  lemma AllocsAround(p1: seq<Access>, a: seq<Access>, p2: seq<Access>, b: seq<Access>, f: seq<Access>)
    requires AllocsOf(p1) == [] && AllocsOf(a) == [] && AllocsOf(p2) == [] && AllocsOf(b) == [] && AllocsOf(f) == []
    ensures AllocsOf(p1 + a + p2 + b + f) == []
  {
    AllocsOfConcat(p1, a);
    AllocsOfConcat(p1 + a, p2);
    AllocsOfConcat(p1 + a + p2, b);
    AllocsOfConcat(p1 + a + p2 + b, f);
  }

  lemma FreesAround(p1: seq<Access>, a: seq<Access>, p2: seq<Access>, b: seq<Access>, f: seq<Access>)
    requires FreesOf(p1) == [] && FreesOf(a) == [] && FreesOf(p2) == [] && FreesOf(b) == []
    ensures FreesOf(p1 + a + p2 + b + f) == FreesOf(f)
  {
    AllocsOfConcat(p1, a);
    AllocsOfConcat(p1 + a, p2);
    AllocsOfConcat(p1 + a + p2, b);
    AllocsOfConcat(p1 + a + p2 + b, f);
  }

  /** The handshake's only host writes are, in this order: the whole record
      (status still FREE), then READY as a separate word, then FREE. Its
      frees are exactly the temporaries, and it allocates nothing. */
  lemma HandshakeWrites(slot: int, toFree: seq<Word>, dc: ExecCmd, toFinish: seq<Word>,
                        temps: seq<Chunk>, needsByteSwap: bool)
    requires WellFormed(dc)
    ensures HostWritesOf(HandshakeTrace(slot, toFree, dc, toFinish, temps, needsByteSwap)) ==
      [HostWrite(slot, CommandBytes(dc, needsByteSwap)),
       HostWrite(slot, WordImage(KstReady, needsByteSwap)),
       HostWrite(slot, WordImage(KstFree, needsByteSwap))]
    ensures FreesOf(HandshakeTrace(slot, toFree, dc, toFinish, temps, needsByteSwap)) == temps
    ensures AllocsOf(HandshakeTrace(slot, toFree, dc, toFinish, temps, needsByteSwap)) == []
  {
    PollTraceIsQuiet(slot, toFree);
    PollTraceIsQuiet(slot, toFinish);
    FreeTraceFrees(temps);
    QuietAround(PollTrace(slot, toFree), HostWrite(slot, CommandBytes(dc, needsByteSwap)),
                HostWrite(slot, WordImage(KstReady, needsByteSwap)), PollTrace(slot, toFinish),
                HostWrite(slot, WordImage(KstFree, needsByteSwap)), FreeTrace(temps));
  }

  /** A busy-wait logs two accesses per poll. */
  lemma {:induction false} PollTraceLength(slot: int, vs: seq<Word>)
    ensures |PollTrace(slot, vs)| == 2 * |vs|
    decreases |vs|
  {
    if vs != [] {
      PollTraceLength(slot, vs[..|vs| - 1]);
    }
  }

  /** The handshake in order: the wait for FREE, the record, READY, the
      wait for FINISHED, FREE, and then one free per temporary. */
  lemma HandshakeTraceShape(slot: int, toFree: seq<Word>, dc: ExecCmd, toFinish: seq<Word>,
                            temps: seq<Chunk>, needsByteSwap: bool)
    requires WellFormed(dc)
    ensures
      var t := HandshakeTrace(slot, toFree, dc, toFinish, temps, needsByteSwap);
      var w := 2 * |toFree|;
      var e := w + 2 * |toFinish| + 2;
      && |t| == e + 1 + |temps|
      && t[..w] == PollTrace(slot, toFree)
      && t[w] == HostWrite(slot, CommandBytes(dc, needsByteSwap))
      && t[w + 1] == HostWrite(slot, WordImage(KstReady, needsByteSwap))
      && t[w + 2 .. e] == PollTrace(slot, toFinish)
      && t[e] == HostWrite(slot, WordImage(KstFree, needsByteSwap))
      && (forall i :: 0 <= i < |temps| ==> t[e + 1 + i] == FreeChunk(temps[i]))
  {
    PollTraceLength(slot, toFree);
    PollTraceLength(slot, toFinish);
    Layout(PollTrace(slot, toFree), HostWrite(slot, CommandBytes(dc, needsByteSwap)),
           HostWrite(slot, WordImage(KstReady, needsByteSwap)), PollTrace(slot, toFinish),
           HostWrite(slot, WordImage(KstFree, needsByteSwap)), FreeTrace(temps));
  }

  /** Two accesses logged one after the other. */
  lemma LogTwo(t: seq<Access>, x: Access, y: Access)
    ensures t + [x] + [y] == t + [x, y]
  {
  }

  /** What follows a prefix of the log. */
  lemma DropLogPrefix(p: seq<Access>, q: seq<Access>, r: seq<Access>)
    ensures (p + q + r)[|p|..] == q + r
  {
  }

  /** Where each part of `p1 + [x, y] + p2 + [z] + f` sits. */
  lemma Layout(p1: seq<Access>, x: Access, y: Access, p2: seq<Access>, z: Access, f: seq<Access>)
    ensures
      var t := p1 + [x, y] + p2 + [z] + f;
      var e := |p1| + |p2| + 2;
      && |t| == e + 1 + |f|
      && t[..|p1|] == p1 && t[|p1|] == x && t[|p1| + 1] == y
      && t[|p1| + 2 .. e] == p2 && t[e] == z
      && (forall i :: 0 <= i < |f| ==> t[e + 1 + i] == f[i])
  {
    var t := p1 + [x, y] + p2 + [z] + f;
    var e := |p1| + |p2| + 2;
    assert t[..|p1|] == p1;
    assert t[|p1| + 2 .. e] == p2;
  }

  /** Marshalling only allocates and writes; each write is a scalar's bytes
      going to the start of the chunk allocated just before it. */
  lemma {:induction false} MarshalTraceShape(args: seq<Arg>, cs: seq<Option<Chunk>>)
    requires |args| == |cs|
    ensures
      var t := MarshalTrace(args, cs);
      && |t| <= 2 * |args|
      && (forall i :: 0 <= i < |t| ==> t[i].AllocChunk? || t[i].HostWrite?)
      && (forall i :: 0 <= i < |t| && t[i].HostWrite? ==>
            0 < i && t[i - 1].AllocChunk? && t[i - 1].chunk.start == t[i].addr)
    decreases |args|
  {
    if args != [] {
      var n := |args| - 1;
      MarshalTraceShape(args[..n], cs[..n]);
      var p := MarshalTrace(args[..n], cs[..n]);
      var st := StepTrace(args[n], cs[n]);
      var t := MarshalTrace(args, cs);
      assert t == p + st;
      forall i | 0 <= i < |t| && t[i].HostWrite?
        ensures 0 < i && t[i - 1].AllocChunk? && t[i - 1].chunk.start == t[i].addr
      {
        if i >= |p| {
          assert t[i] == st[i - |p|];
          assert i - |p| == 1 && t[i - 1] == st[0];
        } else {
          assert t[i] == p[i] && t[i - 1] == p[i - 1];
        }
      }
    }
  }

  /** Over a whole launch, the chunks freed are exactly the chunks allocated,
      in the same order, and the slot's last three writes are record, READY,
      FREE. */
  lemma LaunchFreesWhatItAllocates(args: seq<Arg>, cs: seq<Option<Chunk>>, slot: int,
                                   toFree: seq<Word>, dc: ExecCmd, toFinish: seq<Word>, needsByteSwap: bool)
    requires |args| == |cs| && WellFormed(dc)
    ensures
      var t := MarshalTrace(args, cs) + HandshakeTrace(slot, toFree, dc, toFinish, Temps(cs), needsByteSwap);
      AllocsOf(t) == FreesOf(t) == Temps(cs)
  {
    var m := MarshalTrace(args, cs);
    var h := HandshakeTrace(slot, toFree, dc, toFinish, Temps(cs), needsByteSwap);
    MarshalAllocatesTemps(args, cs);
    HandshakeWrites(slot, toFree, dc, toFinish, Temps(cs), needsByteSwap);
    AllocsOfConcat(m, h);
    assert AllocsOf(m + h) == Temps(cs) + [];
    assert FreesOf(m + h) == [] + Temps(cs);
  }

  /** The device finds, at each field's offset, the value the host meant:
      the kernel address, every argument address, the dimensionality, the
      three group counts and the three global offsets. */
  lemma DeviceDecodesLaunch(cmd: RunCommand, kernelAddr: Word, argWords: seq<Word>, stale: seq<Word>,
                            needsByteSwap: bool)
    requires WellFormedRun(cmd) && |argWords| <= MaxKernelArgs && |stale| == MaxKernelArgs
    ensures
      var cb := CommandBytes(LaunchRecord(cmd, kernelAddr, argWords, stale, needsByteSwap), needsByteSwap);
      && |cb| == CmdSize
      && cb[0..4] == BigEndian(KstFree)
      && cb[4..8] == BigEndian(kernelAddr)
      && (forall i :: 0 <= i < |argWords| ==>
            cb[4 * (2 + i) .. 4 * (2 + i) + 4] == BigEndian(ByteSwap(argWords[i], needsByteSwap)))
      && cb[4 * (2 + MaxKernelArgs) .. 4 * (2 + MaxKernelArgs) + 4] == BigEndian(cmd.workDim)
      && (forall i :: 0 <= i < 3 ==>
            cb[4 * (3 + MaxKernelArgs + i) .. 4 * (3 + MaxKernelArgs + i) + 4] == BigEndian(cmd.numGroups[i]))
      && (forall i :: 0 <= i < 3 ==>
            cb[4 * (6 + MaxKernelArgs + i) .. 4 * (6 + MaxKernelArgs + i) + 4] == BigEndian(cmd.globalOffset[i]))
  {
    var dc := LaunchRecord(cmd, kernelAddr, argWords, stale, needsByteSwap);
    DeviceSeesField(dc, needsByteSwap, 0, KstFree);
    DeviceSeesField(dc, needsByteSwap, 1, kernelAddr);
    forall i | 0 <= i < |argWords|
      ensures CommandBytes(dc, needsByteSwap)[4 * (2 + i) .. 4 * (2 + i) + 4] == BigEndian(ByteSwap(argWords[i], needsByteSwap))
    {
      ByteSwapInvolutive(argWords[i], needsByteSwap);
      DeviceSeesField(dc, needsByteSwap, 2 + i, ByteSwap(argWords[i], needsByteSwap));
    }
    DeviceSeesField(dc, needsByteSwap, 2 + MaxKernelArgs, cmd.workDim);
    forall i | 0 <= i < 3
      ensures CommandBytes(dc, needsByteSwap)[4 * (3 + MaxKernelArgs + i) .. 4 * (3 + MaxKernelArgs + i) + 4] == BigEndian(cmd.numGroups[i])
    {
      DeviceSeesField(dc, needsByteSwap, 3 + MaxKernelArgs + i, cmd.numGroups[i]);
    }
    forall i | 0 <= i < 3
      ensures CommandBytes(dc, needsByteSwap)[4 * (6 + MaxKernelArgs + i) .. 4 * (6 + MaxKernelArgs + i) + 4] == BigEndian(cmd.globalOffset[i])
    {
      DeviceSeesField(dc, needsByteSwap, 6 + MaxKernelArgs + i, cmd.globalOffset[i]);
    }
  }

  lemma InRegionSnoc(ts: seq<Chunk>, x: Chunk, kind: RegionKind)
    ensures InRegion(ts + [x], kind) == InRegion(ts, kind) + (if x.region == kind then {x} else {})
  {
  }

  /** One more poll extends the log by a device store and a host read. */
  lemma PollTraceSnoc(slot: int, vs: seq<Word>, v: Word)
    ensures PollTrace(slot, vs + [v]) == PollTrace(slot, vs) + [DeviceStore(slot, BigEndian(v)), HostRead(slot, 4)]
  {
    assert (vs + [v])[..|vs|] == vs;
  }

  /** What marshalling the arguments `args` has done: `cs` are the chunks
      they took, `temps` the chunks pushed to `tempChunks`, `ws` the words
      placed in `dev_cmd.args`; the log `t` and the live sets of both
      regions have grown from `t0`, `liveL`, `liveG` by exactly those
      allocations, all of them fresh. */
  ghost predicate MarshalState(args: seq<Arg>, cs: seq<Option<Chunk>>, temps: seq<Chunk>, ws: seq<Word>,
                               t0: seq<Access>, liveL: set<Chunk>, liveG: set<Chunk>,
                               t: seq<Access>, localLive: set<Chunk>, globalLive: set<Chunk>, needsByteSwap: bool)
  {
    MarshalTrack(args, cs, temps, ws, t0, t, needsByteSwap) && MarshalFresh(temps, liveL, liveG, localLive, globalLive)
  }

  /** `MarshalState` behind `depth` layers of recursion. The verifier
      unfolds a recursive predicate a bounded number of times, so the
      marshalling loops, which carry `Marshalled(2, ...)` in their contracts,
      work with the state as a whole and never with its parts;
      `MarshalledIs` opens it where a step needs them. */
  ghost predicate Marshalled(depth: nat, args: seq<Arg>, cs: seq<Option<Chunk>>, temps: seq<Chunk>, ws: seq<Word>,
                             t0: seq<Access>, liveL: set<Chunk>, liveG: set<Chunk>,
                             t: seq<Access>, localLive: set<Chunk>, globalLive: set<Chunk>, needsByteSwap: bool)
    decreases depth
  {
    if depth == 0 then MarshalState(args, cs, temps, ws, t0, liveL, liveG, t, localLive, globalLive, needsByteSwap)
    else Marshalled(depth - 1, args, cs, temps, ws, t0, liveL, liveG, t, localLive, globalLive, needsByteSwap)
  }

  lemma MarshalledIs(args: seq<Arg>, cs: seq<Option<Chunk>>, temps: seq<Chunk>, ws: seq<Word>,
                     t0: seq<Access>, liveL: set<Chunk>, liveG: set<Chunk>,
                     t: seq<Access>, localLive: set<Chunk>, globalLive: set<Chunk>, needsByteSwap: bool)
    ensures Marshalled(2, args, cs, temps, ws, t0, liveL, liveG, t, localLive, globalLive, needsByteSwap)
        <==> MarshalState(args, cs, temps, ws, t0, liveL, liveG, t, localLive, globalLive, needsByteSwap)
  {
    assert Marshalled(1, args, cs, temps, ws, t0, liveL, liveG, t, localLive, globalLive, needsByteSwap)
        <==> MarshalState(args, cs, temps, ws, t0, liveL, liveG, t, localLive, globalLive, needsByteSwap);
  }

  /** The values and the log of a marshalling. */
  ghost predicate MarshalTrack(args: seq<Arg>, cs: seq<Option<Chunk>>, temps: seq<Chunk>, ws: seq<Word>,
                               t0: seq<Access>, t: seq<Access>, needsByteSwap: bool)
  {
    && ChunksFit(args, cs)
    && temps == Temps(cs)
    && ws == ArgWords(args, cs, needsByteSwap)
    && t == MarshalLog(t0, args, cs)
  }

  /** The temporaries of a marshalling: distinct, fresh, and added to the
      live sets of their regions. */
  ghost predicate MarshalFresh(temps: seq<Chunk>, liveL: set<Chunk>, liveG: set<Chunk>,
                               localLive: set<Chunk>, globalLive: set<Chunk>)
  {
    && Distinct(temps)
    && localLive == liveL + InRegion(temps, LocalMem)
    && globalLive == liveG + InRegion(temps, GlobalMem)
    && (forall x {:trigger x in temps} :: x in temps ==> x !in liveL && x !in liveG)
  }

  /** Marshalling one more argument extends the values and the log by that
      argument's chunk, word and accesses. */
  lemma TrackSnoc(args: seq<Arg>, cs: seq<Option<Chunk>>, temps: seq<Chunk>, ws: seq<Word>,
                  t0: seq<Access>, t: seq<Access>, needsByteSwap: bool, a: Arg, c: Option<Chunk>)
    requires MarshalTrack(args, cs, temps, ws, t0, t, needsByteSwap)
    requires TakesChunk(a) <==> c.Some?
    requires c.Some? ==> c.value.region == (if a.LocalArg? then LocalMem else GlobalMem)
    requires c.Some? ==> c.value.size == ChunkSize(a)
    ensures MarshalTrack(args + [a], cs + [c], temps + (if c.Some? then [c.value] else []),
                         ws + [ArgWord(a, c, needsByteSwap)], t0, t + StepTrace(a, c), needsByteSwap)
  {
    ChunksFitSnoc(args, cs, a, c);
    TempsSnoc(cs, c);
    ArgWordsSnoc(args, cs, a, c, needsByteSwap);
    MarshalLogSnoc(t0, args, cs, a, c);
  }

  lemma ChunksFitSnoc(args: seq<Arg>, cs: seq<Option<Chunk>>, a: Arg, c: Option<Chunk>)
    requires ChunksFit(args, cs)
    requires TakesChunk(a) <==> c.Some?
    requires c.Some? ==> c.value.region == (if a.LocalArg? then LocalMem else GlobalMem)
    requires c.Some? ==> c.value.size == ChunkSize(a)
    ensures ChunksFit(args + [a], cs + [c])
  {
  }

  lemma TempsSnoc(cs: seq<Option<Chunk>>, c: Option<Chunk>)
    ensures Temps(cs + [c]) == Temps(cs) + (if c.Some? then [c.value] else [])
  {
    assert (cs + [c])[..|cs|] == cs;
  }

  lemma ArgWordsSnoc(args: seq<Arg>, cs: seq<Option<Chunk>>, a: Arg, c: Option<Chunk>, needsByteSwap: bool)
    requires ChunksFit(args, cs) && (TakesChunk(a) <==> c.Some?) && ChunksFit(args + [a], cs + [c])
    ensures ArgWords(args + [a], cs + [c], needsByteSwap) == ArgWords(args, cs, needsByteSwap) + [ArgWord(a, c, needsByteSwap)]
  {
    assert (args + [a])[..|args|] == args;
    assert (cs + [c])[..|cs|] == cs;
  }

  lemma MarshalLogSnoc(t0: seq<Access>, args: seq<Arg>, cs: seq<Option<Chunk>>, a: Arg, c: Option<Chunk>)
    requires |args| == |cs|
    ensures MarshalLog(t0, args + [a], cs + [c]) == MarshalLog(t0, args, cs) + StepTrace(a, c)
  {
    assert (args + [a])[..|args|] == args;
    assert (cs + [c])[..|cs|] == cs;
  }

  /** A chunk fresh to the live set of its region extends the temporaries
      and that live set by itself. */
  lemma FreshStateSnoc(temps: seq<Chunk>, liveL: set<Chunk>, liveG: set<Chunk>,
                       localLive: set<Chunk>, globalLive: set<Chunk>,
                       x: Chunk, localLive': set<Chunk>, globalLive': set<Chunk>)
    requires MarshalFresh(temps, liveL, liveG, localLive, globalLive)
    requires forall y {:trigger y in liveL} :: y in liveL ==> y.region == LocalMem
    requires forall y {:trigger y in liveG} :: y in liveG ==> y.region == GlobalMem
    requires x.region == LocalMem ==> x !in localLive && localLive' == localLive + {x} && globalLive' == globalLive
    requires x.region == GlobalMem ==> x !in globalLive && globalLive' == globalLive + {x} && localLive' == localLive
    ensures MarshalFresh(temps + [x], liveL, liveG, localLive', globalLive')
  {
    FreshSnoc(temps, x, liveL, liveG, localLive, globalLive);
  }

  /** Marshalling one more argument that takes no chunk (a pointer)
      keeps the marshalling state. */
  lemma MarshalStateSnocNone(args: seq<Arg>, cs: seq<Option<Chunk>>, temps: seq<Chunk>, ws: seq<Word>,
                             t0: seq<Access>, liveL: set<Chunk>, liveG: set<Chunk>,
                             t: seq<Access>, localLive: set<Chunk>, globalLive: set<Chunk>, needsByteSwap: bool,
                             a: Arg)
    requires MarshalState(args, cs, temps, ws, t0, liveL, liveG, t, localLive, globalLive, needsByteSwap)
    requires !TakesChunk(a)
    ensures MarshalState(args + [a], cs + [None], temps, ws + [ArgWord(a, None, needsByteSwap)], t0, liveL, liveG,
                         t + StepTrace(a, None), localLive, globalLive, needsByteSwap)
  {
    TrackSnoc(args, cs, temps, ws, t0, t, needsByteSwap, a, None);
    assert temps + [] == temps;
  }

  /** Marshalling one more argument that takes chunk `x`, fresh to its
      region, keeps the marshalling state. */
  lemma MarshalStateSnocSome(args: seq<Arg>, cs: seq<Option<Chunk>>, temps: seq<Chunk>, ws: seq<Word>,
                             t0: seq<Access>, liveL: set<Chunk>, liveG: set<Chunk>,
                             t: seq<Access>, localLive: set<Chunk>, globalLive: set<Chunk>, needsByteSwap: bool,
                             a: Arg, x: Chunk, localLive': set<Chunk>, globalLive': set<Chunk>)
    requires MarshalState(args, cs, temps, ws, t0, liveL, liveG, t, localLive, globalLive, needsByteSwap)
    requires forall y {:trigger y in liveL} :: y in liveL ==> y.region == LocalMem
    requires forall y {:trigger y in liveG} :: y in liveG ==> y.region == GlobalMem
    requires TakesChunk(a)
    requires x.region == (if a.LocalArg? then LocalMem else GlobalMem) && x.size == ChunkSize(a)
    requires a.LocalArg? ==> x !in localLive && localLive' == localLive + {x} && globalLive' == globalLive
    requires !a.LocalArg? ==> x !in globalLive && globalLive' == globalLive + {x} && localLive' == localLive
    ensures MarshalState(args + [a], cs + [Some(x)], temps + [x], ws + [ArgWord(a, Some(x), needsByteSwap)],
                         t0, liveL, liveG, t + StepTrace(a, Some(x)), localLive', globalLive', needsByteSwap)
  {
    TrackSnoc(args, cs, temps, ws, t0, t, needsByteSwap, a, Some(x));
    FreshStateSnoc(temps, liveL, liveG, localLive, globalLive, x, localLive', globalLive');
  }

  /** A chunk fresh to its region's live set extends the temporaries
      without repetition, and the region's share of them by itself. */
  lemma FreshSnoc(temps: seq<Chunk>, x: Chunk, liveL: set<Chunk>, liveG: set<Chunk>,
                  localLive: set<Chunk>, globalLive: set<Chunk>)
    requires Distinct(temps)
    requires localLive == liveL + InRegion(temps, LocalMem)
    requires globalLive == liveG + InRegion(temps, GlobalMem)
    requires forall y {:trigger y in liveL} :: y in liveL ==> y.region == LocalMem
    requires forall y {:trigger y in liveG} :: y in liveG ==> y.region == GlobalMem
    requires x.region == LocalMem ==> x !in localLive
    requires x.region == GlobalMem ==> x !in globalLive
    ensures Distinct(temps + [x]) && x !in liveL && x !in liveG
    ensures InRegion(temps + [x], LocalMem) == InRegion(temps, LocalMem) + (if x.region == LocalMem then {x} else {})
    ensures InRegion(temps + [x], GlobalMem) == InRegion(temps, GlobalMem) + (if x.region == GlobalMem then {x} else {})
  {
    forall y | y in temps ensures y != x {
      assert y in InRegion(temps, y.region);
    }
    InRegionSnoc(temps, x, LocalMem);
    InRegionSnoc(temps, x, GlobalMem);
  }

  /** The handshake's log read as one piece after a prefix. */
  lemma HandshakeTraceAfter(pre: seq<Access>, slot: int, toFree: seq<Word>, dc: ExecCmd, toFinish: seq<Word>,
                            temps: seq<Chunk>, needsByteSwap: bool)
    requires WellFormed(dc)
    ensures pre + PollTrace(slot, toFree)
            + [HostWrite(slot, CommandBytes(dc, needsByteSwap)), HostWrite(slot, WordImage(KstReady, needsByteSwap))]
            + PollTrace(slot, toFinish)
            + [HostWrite(slot, WordImage(KstFree, needsByteSwap))]
            + FreeTrace(temps)
         == pre + HandshakeTrace(slot, toFree, dc, toFinish, temps, needsByteSwap)
  {
  }

  /** One more iteration of the closing loop: the log grows by one free,
      and the chunk leaves its region's live set. */
  lemma FreeStep(pre: seq<Access>, ts: seq<Chunk>, i: nat, liveL: set<Chunk>, liveG: set<Chunk>)
    requires i < |ts|
    ensures pre + FreeTrace(ts[..i + 1]) == pre + FreeTrace(ts[..i]) + [FreeChunk(ts[i])]
    ensures liveL - InRegion(ts[..i + 1], LocalMem)
            == liveL - InRegion(ts[..i], LocalMem) - (if ts[i].region == LocalMem then {ts[i]} else {})
    ensures liveG - InRegion(ts[..i + 1], GlobalMem)
            == liveG - InRegion(ts[..i], GlobalMem) - (if ts[i].region == GlobalMem then {ts[i]} else {})
  {
    assert ts[..i + 1] == ts[..i] + [ts[i]];
    assert FreeTrace(ts[..i + 1]) == FreeTrace(ts[..i]) + [FreeChunk(ts[i])];
    InRegionSnoc(ts[..i], ts[i], LocalMem);
    InRegionSnoc(ts[..i], ts[i], GlobalMem);
  }

  /** A launch of `cmd` that ran to completion, with the log growing from
      `t0` to `t` and the live sets from `liveL0`, `liveG0` to `liveL`,
      `liveG`: the arguments took the chunks `cs`; the record written is
      the launch record of their words over whatever its other argument
      slots held; both busy-waits stopped at the
      first sighting of their status; the log is the marshalling followed
      by the handshake; every temporary was fresh, and since all of them
      were freed, both regions hold what they held before. */
  ghost predicate CompletedLaunch(cmd: RunCommand, kernelAddr: Word, cs: seq<Option<Chunk>>, dc: ExecCmd,
                                  script: seq<Word>, k1: nat, k2: nat, slot: int,
                                  t0: seq<Access>, t: seq<Access>, liveL0: set<Chunk>, liveG0: set<Chunk>,
                                  liveL: set<Chunk>, liveG: set<Chunk>, needsByteSwap: bool)
  {
    var all := AllArgs(cmd);
    && WellFormedRun(cmd)
    && ChunksFit(all, cs)
    && |dc.args| == MaxKernelArgs
    && dc == LaunchRecord(cmd, kernelAddr, ArgWords(all, cs, needsByteSwap), dc.args, needsByteSwap)
    && k1 <= k2 <= |script|
    && PolledUntil(script[..k1], KstFree) && PolledUntil(script[k1..k2], KstFinished)
    && t == t0 + MarshalTrace(all, cs) + HandshakeTrace(slot, script[..k1], dc, script[k1..k2], Temps(cs), needsByteSwap)
    && (forall x {:trigger x in Temps(cs)} :: x in Temps(cs) ==> x !in liveL0 && x !in liveG0)
    && liveL == liveL0 && liveG == liveG0
  }

  /** Marshalling followed by a completed handshake that freed the
      temporaries is a completed launch. */
  lemma LaunchCompletes(cmd: RunCommand, kernelAddr: Word, cs: seq<Option<Chunk>>, temps: seq<Chunk>, ws: seq<Word>,
                        dc: ExecCmd, script: seq<Word>, k1: nat, k2: nat, slot: int,
                        t0: seq<Access>, t1: seq<Access>, t: seq<Access>,
                        liveL0: set<Chunk>, liveG0: set<Chunk>, liveL1: set<Chunk>, liveG1: set<Chunk>,
                        liveL: set<Chunk>, liveG: set<Chunk>, needsByteSwap: bool)
    requires WellFormedRun(cmd)
    requires MarshalState(AllArgs(cmd), cs, temps, ws, t0, liveL0, liveG0, t1, liveL1, liveG1, needsByteSwap)
    requires |dc.args| == MaxKernelArgs && dc == LaunchRecord(cmd, kernelAddr, ws, dc.args, needsByteSwap)
    requires k1 <= k2 <= |script|
    requires PolledUntil(script[..k1], KstFree) && PolledUntil(script[k1..k2], KstFinished)
    requires t == t1 + HandshakeTrace(slot, script[..k1], dc, script[k1..k2], temps, needsByteSwap)
    requires liveL == liveL1 - InRegion(temps, LocalMem) && liveG == liveG1 - InRegion(temps, GlobalMem)
    ensures CompletedLaunch(cmd, kernelAddr, cs, dc, script, k1, k2, slot, t0, t, liveL0, liveG0, liveL, liveG, needsByteSwap)
  {
    var all := AllArgs(cmd);
    var h := HandshakeTrace(slot, script[..k1], dc, script[k1..k2], temps, needsByteSwap);
    MarshalLogIsAppend(t0, all, cs);
    assert t == t0 + MarshalTrace(all, cs) + h;
    SetsAddRemove(liveL0, InRegion(temps, LocalMem));
    SetsAddRemove(liveG0, InRegion(temps, GlobalMem));
  }

  /** Adding then removing a set disjoint from `s` gives back `s`. */
  lemma SetsAddRemove(s: set<Chunk>, d: set<Chunk>)
    requires forall x :: x in d ==> x !in s
    ensures s + d - d == s
  {
  }

  /** Over a completed launch, the chunks freed are exactly the chunks
      allocated, in the same order. */
  lemma CompletedLaunchBalanced(cmd: RunCommand, kernelAddr: Word, cs: seq<Option<Chunk>>, dc: ExecCmd,
                                script: seq<Word>, k1: nat, k2: nat, slot: int,
                                t0: seq<Access>, t: seq<Access>, liveL0: set<Chunk>, liveG0: set<Chunk>,
                                liveL: set<Chunk>, liveG: set<Chunk>, needsByteSwap: bool)
    requires CompletedLaunch(cmd, kernelAddr, cs, dc, script, k1, k2, slot, t0, t, liveL0, liveG0, liveL, liveG, needsByteSwap)
    ensures |t0| <= |t| && AllocsOf(t[|t0|..]) == FreesOf(t[|t0|..]) == Temps(cs)
  {
    var all := AllArgs(cmd);
    var m := MarshalTrace(all, cs);
    var h := HandshakeTrace(slot, script[..k1], dc, script[k1..k2], Temps(cs), needsByteSwap);
    DropLogPrefix(t0, m, h);
    LaunchFreesWhatItAllocates(all, cs, slot, script[..k1], dc, script[k1..k2], needsByteSwap);
  }
}
