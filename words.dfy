/**
 * 32-bit words, their bytes, and the byte swap the driver applies when the
 * host's byte order differs from the (big-endian) TTA device's.
 */
module Words {

  type Byte = x: int | 0 <= x < 256
  type Word = x: int | 0 <= x < 0x1_0000_0000

  const WordModulus: int := 0x1_0000_0000

  /** A C `uint32_t` conversion: wrap an address into 32 bits. */
  function ToWord(x: int): (w: Word)
    ensures 0 <= x < WordModulus ==> w == x
    ensures (w - x) % WordModulus == 0
  {
    x % WordModulus
  }

  /** A C conversion to 32-bit `int`: the value cut to 32 bits, read as
      two's complement. */
  function Int32(x: int): (r: int)
    ensures -0x8000_0000 <= r < 0x8000_0000
    ensures (r - x) % WordModulus == 0
    ensures -0x8000_0000 <= x < 0x8000_0000 ==> r == x
  {
    (x + 0x8000_0000) % WordModulus - 0x8000_0000
  }

  /** The four bytes of `w`, most significant first. */
  function BigEndian(w: Word): (b: seq<Byte>)
    ensures |b| == 4
  {
    var q1 := w / 256;
    var q2 := q1 / 256;
    var q3 := q2 / 256;
    [q3, q2 % 256, q1 % 256, w % 256]
  }

  /** The word whose bytes, most significant first, are `b`. */
  function FromBigEndian(b: seq<Byte>): (w: Word)
    requires |b| == 4
  {
    ((b[0] as int * 256 + b[1]) * 256 + b[2]) * 256 + b[3]
  }

  function Reverse4(b: seq<Byte>): (r: seq<Byte>)
    requires |b| == 4
    ensures |r| == 4 && forall i :: 0 <= i < 4 ==> r[i] == b[3 - i]
  {
    [b[3], b[2], b[1], b[0]]
  }

  /** The bytes of `w` as the host lays them out in memory. The driver's
      constructor sets the swap flag exactly on a little-endian host. */
  function HostBytes(w: Word, needsByteSwap: bool): seq<Byte>
  {
    if needsByteSwap then Reverse4(BigEndian(w)) else BigEndian(w)
  }

  /** The word a host reads from four bytes laid out in its own order. */
  function FromHostBytes(b: seq<Byte>, needsByteSwap: bool): Word
    requires |b| == 4
  {
    if needsByteSwap then FromBigEndian(Reverse4(b)) else FromBigEndian(b)
  }

  /** `byteswap_uint32_t`: reverse the four bytes when the flag is set. */
  function ByteSwap(w: Word, swap: bool): Word
  {
    if swap then FromBigEndian(Reverse4(BigEndian(w))) else w
  }

  lemma DivMod256(q: int, r: int)
    requires 0 <= r < 256
    ensures (q * 256 + r) / 256 == q && (q * 256 + r) % 256 == r
  {
  }

  /** Reading back the bytes of a word gives the word. */
  lemma FromBigEndianOfBigEndian(w: Word)
    ensures FromBigEndian(BigEndian(w)) == w
  {
    var q1 := w / 256;
    var q2 := q1 / 256;
    var q3 := q2 / 256;
    assert q3 < 256;
    assert q3 % 256 == q3;
    assert q2 == q3 * 256 + q2 % 256;
    assert q1 == q2 * 256 + q1 % 256;
    assert w == q1 * 256 + w % 256;
  }

  /** Splitting a word built from four bytes gives those bytes back. */
  lemma BigEndianOfFromBigEndian(b: seq<Byte>)
    requires |b| == 4
    ensures BigEndian(FromBigEndian(b)) == b
  {
    var w := FromBigEndian(b);
    var h2: int := b[0] as int * 256 + b[1];
    var h1: int := h2 * 256 + b[2];
    DivMod256(h1, b[3]);
    DivMod256(h2, b[2]);
    DivMod256(b[0], b[1]);
    assert w / 256 == h1;
    assert h1 / 256 == h2;
    assert h2 / 256 == b[0];
  }

  /** Swapping reverses the word's bytes: byte i of the result is byte
      3 - i of the word; without the flag the word is unchanged. */
  lemma ByteSwapReversesBytes(w: Word, swap: bool)
    ensures BigEndian(ByteSwap(w, swap)) == (if swap then Reverse4(BigEndian(w)) else BigEndian(w))
  {
    BigEndianOfFromBigEndian(Reverse4(BigEndian(w)));
  }

  /** Swapping twice with the same flag is the identity. */
  lemma ByteSwapInvolutive(w: Word, swap: bool)
    ensures ByteSwap(ByteSwap(w, swap), swap) == w
  {
    if swap {
      var r := Reverse4(BigEndian(w));
      BigEndianOfFromBigEndian(r);
      assert Reverse4(Reverse4(BigEndian(w))) == BigEndian(w);
      FromBigEndianOfBigEndian(w);
    }
  }

  /** Whatever the host's byte order, a word swapped per the flag lands in
      memory in the device's (big-endian) byte order. */
  lemma SwappedWordIsBigEndianInMemory(w: Word, needsByteSwap: bool)
    ensures HostBytes(ByteSwap(w, needsByteSwap), needsByteSwap) == BigEndian(w)
  {
    if needsByteSwap {
      var r := Reverse4(BigEndian(w));
      BigEndianOfFromBigEndian(r);
      assert Reverse4(r) == BigEndian(w);
    }
  }

  /** A host reading bytes that are in the device's order and swapping per
      the flag obtains the word those bytes encode. */
  lemma HostReadOfBigEndian(w: Word, needsByteSwap: bool)
    ensures ByteSwap(FromHostBytes(BigEndian(w), needsByteSwap), needsByteSwap) == w
  {
    FromBigEndianOfBigEndian(w);
    if needsByteSwap {
      var r := Reverse4(BigEndian(w));
      ByteSwapInvolutive(w, true);
      BigEndianOfFromBigEndian(r);
      assert ByteSwap(FromBigEndian(r), true) == FromBigEndian(Reverse4(BigEndian(FromBigEndian(r))));
      assert Reverse4(r) == BigEndian(w);
    }
  }
}
