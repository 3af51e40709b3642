/**
 * `__kernel_exec_cmd`, the record the host writes into the device's single
 * command slot, and the status values of that slot.
 *
 * Layout: status, kernel, args[MaxKernelArgs], work_dim, num_groups[3],
 * global_offset[3], each a 32-bit word. The driver polls and writes the
 * status word at the slot's own address, so status is the word at offset 0.
 */
module ExecCommand {
  import opened Words
  import opened DeviceMemory

  const KstFree: Word := 1
  const KstReady: Word := 2
  const KstRunning: Word := 3
  const KstFinished: Word := 4

  const MaxKernelArgs: nat := 64

  /** Number of 32-bit words in the record. */
  const CmdWords: nat := 2 + MaxKernelArgs + 1 + 3 + 3

  /** `sizeof(__kernel_exec_cmd)` in bytes. */
  const CmdSize: nat := 4 * CmdWords

  /** Every field as stored, that is already byte-swapped per the device. */
  datatype ExecCmd = ExecCmd(
    status: Word,
    kernel: Word,
    args: seq<Word>,
    workDim: Word,
    numGroups: seq<Word>,
    globalOffset: seq<Word>)

  predicate WellFormed(dc: ExecCmd)
  {
    |dc.args| == MaxKernelArgs && |dc.numGroups| == 3 && |dc.globalOffset| == 3
  }

  /** The record's words in memory order. */
  function Fields(dc: ExecCmd): (ws: seq<Word>)
    requires WellFormed(dc)
    ensures |ws| == CmdWords
    ensures ws[0] == dc.status && ws[1] == dc.kernel
    ensures forall i :: 0 <= i < MaxKernelArgs ==> ws[2 + i] == dc.args[i]
    ensures ws[2 + MaxKernelArgs] == dc.workDim
    ensures forall i :: 0 <= i < 3 ==> ws[3 + MaxKernelArgs + i] == dc.numGroups[i]
    ensures forall i :: 0 <= i < 3 ==> ws[6 + MaxKernelArgs + i] == dc.globalOffset[i]
  {
    [dc.status, dc.kernel] + dc.args + [dc.workDim] + dc.numGroups + dc.globalOffset
  }

  /** The host's in-memory image of a sequence of words. */
  function WordsBytes(ws: seq<Word>, needsByteSwap: bool): seq<Byte>
  {
    if ws == [] then [] else HostBytes(ws[0], needsByteSwap) + WordsBytes(ws[1..], needsByteSwap)
  }

  /** The bytes `copyHostToDevice(&dev_cmd, ..., sizeof(__kernel_exec_cmd))` sends. */
  function CommandBytes(dc: ExecCmd, needsByteSwap: bool): seq<Byte>
    requires WellFormed(dc)
  {
    WordsBytes(Fields(dc), needsByteSwap)
  }

  /** Word `i` of a sequence occupies bytes 4i .. 4i+4 of its image. */
  lemma {:induction false} WordsBytesAt(ws: seq<Word>, needsByteSwap: bool, i: nat)
    requires i < |ws|
    ensures |WordsBytes(ws, needsByteSwap)| == 4 * |ws|
    ensures WordsBytes(ws, needsByteSwap)[4 * i .. 4 * i + 4] == HostBytes(ws[i], needsByteSwap)
  {
    var rest := WordsBytes(ws[1..], needsByteSwap);
    if i == 0 {
      if |ws| > 1 {
        WordsBytesAt(ws[1..], needsByteSwap, 0);
      } else {
        assert rest == [];
      }
    } else {
      WordsBytesAt(ws[1..], needsByteSwap, i - 1);
      assert WordsBytes(ws, needsByteSwap)[4 * i .. 4 * i + 4] == rest[4 * (i - 1) .. 4 * (i - 1) + 4];
    }
  }

  /** The record occupies exactly `sizeof(__kernel_exec_cmd)` bytes, and the
      device reads every field at its offset in big-endian order, the value
      the host had before swapping. */
  lemma DeviceSeesField(dc: ExecCmd, needsByteSwap: bool, i: nat, v: Word)
    requires WellFormed(dc) && i < CmdWords
    requires Fields(dc)[i] == ByteSwap(v, needsByteSwap)
    ensures |CommandBytes(dc, needsByteSwap)| == CmdSize
    ensures CommandBytes(dc, needsByteSwap)[4 * i .. 4 * i + 4] == BigEndian(v)
  {
    WordsBytesAt(Fields(dc), needsByteSwap, i);
    SwappedWordIsBigEndianInMemory(v, needsByteSwap);
  }

  /** After the bulk write of a record whose status was encoded as FREE, the
      slot still reads FREE: the device cannot take a half-written command. */
  lemma BulkWriteLeavesSlotFree(m: Mem, slot: int, dc: ExecCmd, needsByteSwap: bool)
    requires WellFormed(dc) && dc.status == ByteSwap(KstFree, needsByteSwap)
    ensures ReadWord(WriteBytes(m, slot, CommandBytes(dc, needsByteSwap)), slot, needsByteSwap) == KstFree
  {
    var cb := CommandBytes(dc, needsByteSwap);
    var m' := WriteBytes(m, slot, cb);
    WordsBytesAt(Fields(dc), needsByteSwap, 0);
    SwappedWordIsBigEndianInMemory(KstFree, needsByteSwap);
    WordImageIsBigEndian(KstFree, needsByteSwap);
    forall j | 0 <= j < 4 ensures ReadBytes(m', slot, 4)[j] == WordImage(KstFree, needsByteSwap)[j] {
      WriteBytesAt(m, slot, cb, slot + j);
      assert cb[j] == cb[0 .. 4][j];
    }
    ReadWordOfImage(m', slot, KstFree, needsByteSwap);
  }

  /** Overwriting the first four bytes of a block leaves the rest of it. */
  lemma OverwriteHead(m: Mem, slot: int, cb: seq<Byte>, head: seq<Byte>)
    requires |head| == 4 <= |cb|
    ensures ReadBytes(WriteBytes(WriteBytes(m, slot, cb), slot, head), slot + 4, |cb| - 4) == cb[4..]
  {
    var m1 := WriteBytes(m, slot, cb);
    ReadOutsideWrite(m1, slot, head, slot + 4, |cb| - 4);
    forall j | 0 <= j < |cb| - 4 ensures ReadBytes(m1, slot + 4, |cb| - 4)[j] == cb[4..][j] {
      WriteBytesAt(m, slot, cb, slot + 4 + j);
    }
  }

  /** The final READY write changes only the status word: the slot then
      reads READY and every other field keeps the bytes of the bulk write. */
  lemma ReadyWriteKeepsFields(m: Mem, slot: int, dc: ExecCmd, needsByteSwap: bool)
    requires WellFormed(dc)
    ensures
      var m' := WriteBytes(WriteBytes(m, slot, CommandBytes(dc, needsByteSwap)), slot, WordImage(KstReady, needsByteSwap));
      && ReadWord(m', slot, needsByteSwap) == KstReady
      && ReadBytes(m', slot + 4, CmdSize - 4) == CommandBytes(dc, needsByteSwap)[4..]
  {
    var cb := CommandBytes(dc, needsByteSwap);
    WordsBytesAt(Fields(dc), needsByteSwap, 0);
    WordReadAfterWrite(WriteBytes(m, slot, cb), slot, KstReady, needsByteSwap);
    OverwriteHead(m, slot, cb, WordImage(KstReady, needsByteSwap));
  }
}
