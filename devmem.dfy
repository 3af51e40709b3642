/**
 * The device's byte-addressable memory as seen through the raw transfer
 * primitives `copyHostToDevice`/`copyDeviceToHost`, and the log of every
 * access the driver makes.
 */
module DeviceMemory {
  import opened Words
  import opened Allocator

  /** Device memory: address to byte. An address never written reads as 0. */
  type Mem = map<int, Byte>

  /** One observable step: host transfers, the device's own stores to the
      command slot, program (re)loads, and allocator calls. */
  datatype Access =
    | HostWrite(addr: int, data: seq<Byte>)
    | HostRead(addr: int, len: nat)
    | DeviceStore(addr: int, data: seq<Byte>)
    | LoadProgram
    | RestartProgram
    | AllocChunk(chunk: Chunk)
    | FreeChunk(chunk: Chunk)

  function Get(m: Mem, a: int): Byte
  {
    if a in m then m[a] else 0
  }

  /** `copyHostToDevice`: the bytes `d` land at `a`, `a + 1`, ... */
  function WriteBytes(m: Mem, a: int, d: seq<Byte>): Mem
  {
    WritePrefix(m, a, d, |d|)
  }

  /** The first `n` bytes of `d` written from `a` on. */
  function WritePrefix(m: Mem, a: int, d: seq<Byte>, n: nat): Mem
    requires n <= |d|
    decreases n
  {
    if n == 0 then m else WritePrefix(m, a, d, n - 1)[a + n - 1 := d[n - 1]]
  }

  /** `copyDeviceToHost`: the `n` bytes from `a` on. */
  function ReadBytes(m: Mem, a: int, n: nat): (r: seq<Byte>)
    ensures |r| == n && forall i :: 0 <= i < n ==> r[i] == Get(m, a + i)
    decreases n
  {
    if n == 0 then [] else [Get(m, a)] + ReadBytes(m, a + 1, n - 1)
  }

  /** A write changes exactly the bytes it covers, to the bytes written. */
  lemma WriteBytesAt(m: Mem, a: int, d: seq<Byte>, k: int)
    ensures Get(WriteBytes(m, a, d), k) == if a <= k < a + |d| then d[k - a] else Get(m, k)
  {
    WritePrefixAt(m, a, d, |d|, k);
  }

  lemma {:induction false} WritePrefixAt(m: Mem, a: int, d: seq<Byte>, n: nat, k: int)
    requires n <= |d|
    ensures Get(WritePrefix(m, a, d, n), k) == if a <= k < a + n then d[k - a] else Get(m, k)
    decreases n
  {
    if n > 0 {
      WritePrefixAt(m, a, d, n - 1, k);
    }
  }

  /** Reading back the range just written returns what was written. */
  lemma ReadAfterWrite(m: Mem, a: int, d: seq<Byte>)
    ensures ReadBytes(WriteBytes(m, a, d), a, |d|) == d
  {
    forall i | 0 <= i < |d| ensures ReadBytes(WriteBytes(m, a, d), a, |d|)[i] == d[i] {
      WriteBytesAt(m, a, d, a + i);
    }
  }

  /** A write leaves every range it does not touch unchanged. */
  lemma ReadOutsideWrite(m: Mem, a: int, d: seq<Byte>, b: int, n: nat)
    requires a + |d| <= b || b + n <= a
    ensures ReadBytes(WriteBytes(m, a, d), b, n) == ReadBytes(m, b, n)
  {
    forall i | 0 <= i < n ensures ReadBytes(WriteBytes(m, a, d), b, n)[i] == ReadBytes(m, b, n)[i] {
      WriteBytesAt(m, a, d, b + i);
    }
  }

  /** The bytes `writeWordToDevice` transfers for `w`. */
  function WordImage(w: Word, needsByteSwap: bool): (b: seq<Byte>)
    ensures |b| == 4
  {
    HostBytes(ByteSwap(w, needsByteSwap), needsByteSwap)
  }

  /** The word `readWordFromDevice` returns for the bytes at `a`. */
  function ReadWord(m: Mem, a: int, needsByteSwap: bool): Word
  {
    ByteSwap(FromHostBytes(ReadBytes(m, a, 4), needsByteSwap), needsByteSwap)
  }

  /** The device sees every word the host writes in big-endian order,
      whichever byte order the host has. */
  lemma WordImageIsBigEndian(w: Word, needsByteSwap: bool)
    ensures WordImage(w, needsByteSwap) == BigEndian(w)
  {
    SwappedWordIsBigEndianInMemory(w, needsByteSwap);
  }

  /** Four bytes holding the image of `w` read back as `w`. */
  lemma ReadWordOfImage(m: Mem, a: int, w: Word, needsByteSwap: bool)
    requires ReadBytes(m, a, 4) == WordImage(w, needsByteSwap)
    ensures ReadWord(m, a, needsByteSwap) == w
  {
    WordImageIsBigEndian(w, needsByteSwap);
    HostReadOfBigEndian(w, needsByteSwap);
  }

  /** A word read back after a word write returns the value written, for
      either setting of the swap flag. */
  lemma WordReadAfterWrite(m: Mem, a: int, w: Word, needsByteSwap: bool)
    ensures ReadWord(WriteBytes(m, a, WordImage(w, needsByteSwap)), a, needsByteSwap) == w
  {
    ReadAfterWrite(m, a, WordImage(w, needsByteSwap));
    ReadWordOfImage(WriteBytes(m, a, WordImage(w, needsByteSwap)), a, w, needsByteSwap);
  }

  /** What the device stores into the slot (its own byte order) is what the
      host's next word read returns. */
  lemma DeviceStoreReadBack(m: Mem, a: int, v: Word, needsByteSwap: bool)
    ensures ReadWord(WriteBytes(m, a, BigEndian(v)), a, needsByteSwap) == v
  {
    ReadAfterWrite(m, a, BigEndian(v));
    HostReadOfBigEndian(v, needsByteSwap);
  }

  /** The effect of one access on device memory: host writes and device
      stores change the bytes they cover; nothing else changes memory. */
  function Step(m: Mem, a: Access): Mem
  {
    match a
    case HostWrite(addr, data) => WriteBytes(m, addr, data)
    case DeviceStore(addr, data) => WriteBytes(m, addr, data)
    case _ => m
  }

  /** Device memory after the first `n` accesses of `t`, starting from `m`. */
  function ReplayUpTo(m: Mem, t: seq<Access>, n: nat): Mem
    requires n <= |t|
    decreases n
  {
    if n == 0 then m else Step(ReplayUpTo(m, t, n - 1), t[n - 1])
  }

  /** Device memory after a log of accesses, starting from `m`. */
  function Replay(m: Mem, t: seq<Access>): Mem
  {
    ReplayUpTo(m, t, |t|)
  }

  /** Replaying a prefix depends on nothing after it. */
  lemma {:induction false} ReplayUpToPrefix(m: Mem, t: seq<Access>, u: seq<Access>, n: nat)
    requires n <= |t| && n <= |u| && t[..n] == u[..n]
    ensures ReplayUpTo(m, t, n) == ReplayUpTo(m, u, n)
    decreases n
  {
    if n > 0 {
      assert t[..n - 1] == u[..n - 1] by {
        assert t[..n - 1] == t[..n][..n - 1];
        assert u[..n - 1] == u[..n][..n - 1];
      }
      assert t[n - 1] == t[..n][n - 1] == u[..n][n - 1] == u[n - 1];
      ReplayUpToPrefix(m, t, u, n - 1);
    }
  }

  /** Logging one more access keeps memory the replay of the log. */
  lemma ReplaySnoc(m: Mem, t: seq<Access>, a: Access)
    ensures Replay(m, t + [a]) == Step(Replay(m, t), a)
  {
    assert (t + [a])[..|t|] == t[..|t|];
    ReplayUpToPrefix(m, t + [a], t, |t|);
  }
}
