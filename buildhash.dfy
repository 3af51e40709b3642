/**
 * `pocl_tce_build_hash`: the name under which kernels compiled for one TTA
 * machine are cached. It is "tce-", then two letters per byte of the SHA-1
 * digest of the machine description (the low nibble, then the high one,
 * each as a letter from 'A' to 'P'), then '_', then the extra compiler
 * flags, all in a zero-filled buffer of 1000 characters. The digest and
 * the flags are parameters: hashing the file and reading the environment
 * are not modelled.
 */
module BuildHash {
  import opened Wrappers
  import opened Words

  /** `SHA1_DIGEST_SIZE`. */
  const DigestSize: nat := 20
  /** The size of the zero-filled result buffer. */
  const BufferSize: nat := 1000
  /** "tce-", two letters per digest byte, and '_'. */
  const HeaderLength: nat := 4 + 2 * DigestSize + 1
  /** The count the source hands to `strncpy`: all of the buffer after the
      header, which leaves no room for the terminating NUL. */
  const AsWrittenLimit: nat := BufferSize - HeaderLength
  /** The count that keeps the last character of the buffer a NUL. */
  const CorrectedLimit: nat := BufferSize - HeaderLength - 1

  /** A C string's characters: no NUL among them. */
  predicate NulFree(s: string)
  {
    forall i :: 0 <= i < |s| ==> s[i] != '\0'
  }

  function LowLetter(b: Byte): (c: char)
    ensures 'A' <= c <= 'P' && c as int - 65 == b % 16
  {
    (65 + b % 16) as char
  }

  function HighLetter(b: Byte): (c: char)
    ensures 'A' <= c <= 'P' && c as int - 65 == b / 16
  {
    (65 + b / 16) as char
  }

  /** The byte whose low and high nibbles two letters spell, if both are
      letters from 'A' to 'P'. */
  function ByteOf(lo: char, hi: char): (r: Option<Byte>)
    ensures r.Some? <==> 'A' <= lo <= 'P' && 'A' <= hi <= 'P'
    ensures r.Some? ==> LowLetter(r.value) == lo && HighLetter(r.value) == hi
  {
    if 'A' <= lo <= 'P' && 'A' <= hi <= 'P' then Some((hi as int - 65) * 16 + (lo as int - 65)) else None
  }

  lemma ByteOfLetters(b: Byte)
    ensures ByteOf(LowLetter(b), HighLetter(b)) == Some(b)
  {
  }

  /** The digest's letters: for each byte in turn, the letter of its low
      nibble, then that of its high nibble. */
  function Letters(d: seq<Byte>): (r: string)
    ensures |r| == 2 * |d| && NulFree(r)
  {
    seq(2 * |d|, i requires 0 <= i < 2 * |d| => if i % 2 == 0 then LowLetter(d[i / 2]) else HighLetter(d[i / 2]))
  }

  /** The letters of byte `j` sit at `2j` and `2j + 1`. */
  lemma LettersAt(d: seq<Byte>, j: nat)
    requires j < |d|
    ensures Letters(d)[2 * j] == LowLetter(d[j]) && Letters(d)[2 * j + 1] == HighLetter(d[j])
  {
  }

  /** "tce-", the digest's letters, '_'. */
  function Header(d: seq<Byte>): (r: string)
    requires |d| == DigestSize
    ensures |r| == HeaderLength && NulFree(r)
  {
    "tce-" + Letters(d) + "_"
  }

  /** What `strncpy` with count `limit` puts after the header: the flags,
      cut to `limit` characters; nothing when the option is not set. */
  function Copied(flags: Option<string>, limit: nat): (r: string)
    ensures flags.None? ==> r == []
    ensures flags.Some? ==> |r| == Min(|flags.value|, limit) && r == flags.value[..|r|]
  {
    match flags
    case None => []
    case Some(f) => if |f| <= limit then f else f[..limit]
  }

  function Min(a: nat, b: nat): nat
  {
    if a <= b then a else b
  }

  function Zeros(n: nat): (r: string)
    ensures |r| == n && forall i :: 0 <= i < n ==> r[i] == '\0'
  {
    seq(n, _ => '\0')
  }

  /** The whole result buffer when `strncpy` is given count `limit`. */
  function HashBuffer(d: seq<Byte>, flags: Option<string>, limit: nat): (r: string)
    requires |d| == DigestSize && limit <= AsWrittenLimit
    ensures |r| == BufferSize
  {
    var c := Copied(flags, limit);
    Header(d) + c + Zeros(AsWrittenLimit - |c|)
  }

  /** The C string that starts a buffer: its characters before the first
      NUL, or `None` when the buffer holds no NUL and a reader runs off its
      end. */
  function CString(buf: string): (r: Option<string>)
    ensures r.Some? ==> |r.value| < |buf| && buf[|r.value|] == '\0' && r.value == buf[..|r.value|] && NulFree(r.value)
    ensures r.None? ==> NulFree(buf)
    decreases |buf|
  {
    if buf == [] then None
    else if buf[0] == '\0' then Some([])
    else match CString(buf[1..])
      case None => None
      case Some(s) => Some([buf[0]] + s)
  }

  /** The C string is the longest NUL-free prefix: a buffer made of a
      NUL-free part and then a NUL reads as that part. */
  lemma {:induction false} CStringOf(s: string, rest: string)
    requires NulFree(s) && rest != [] && rest[0] == '\0'
    ensures CString(s + rest) == Some(s)
    decreases |s|
  {
    if s != [] {
      assert (s + rest)[1..] == s[1..] + rest;
      CStringOf(s[1..], rest);
      assert s == [s[0]] + s[1..];
    }
  }

  /** As written, flags of 955 characters or more fill the buffer to its
      last character and leave it without a terminating NUL. */
  lemma AsWrittenUnterminated(d: seq<Byte>, f: string)
    requires |d| == DigestSize && NulFree(f) && |f| >= AsWrittenLimit
    ensures CString(HashBuffer(d, Some(f), AsWrittenLimit)).None?
  {
    var buf := HashBuffer(d, Some(f), AsWrittenLimit);
    var h := Header(d);
    var c := Copied(Some(f), AsWrittenLimit);
    assert buf == h + c;
    forall i | 0 <= i < |buf| ensures buf[i] != '\0' {
      if i >= HeaderLength {
        assert buf[i] == f[i - HeaderLength];
      }
    }
  }

  /** The name a corrected buffer reads as: the header and the flags cut to
      954 characters. */
  function Name(d: seq<Byte>, flags: Option<string>): string
    requires |d| == DigestSize
  {
    Header(d) + Copied(flags, CorrectedLimit)
  }

  /** With the count one smaller the buffer always ends in a NUL, and reads
      as the header followed by the (cut) flags. */
  lemma CorrectedTerminated(d: seq<Byte>, flags: Option<string>)
    requires |d| == DigestSize && (flags.Some? ==> NulFree(flags.value))
    ensures CString(HashBuffer(d, flags, CorrectedLimit)) == Some(Name(d, flags))
    ensures |Name(d, flags)| < BufferSize
  {
    var h := Header(d);
    var c := Copied(flags, CorrectedLimit);
    var z := Zeros(AsWrittenLimit - |c|);
    assert HashBuffer(d, flags, CorrectedLimit) == (h + c) + z;
    assert NulFree(h + c) by {
      forall i | 0 <= i < |h + c| ensures (h + c)[i] != '\0' {
        if i >= |h| {
          assert (h + c)[i] == flags.value[i - |h|];
        }
      }
    }
    CStringOf(h + c, z);
  }

  /** The digest bytes spelled by the first `n` letter pairs of `s`. */
  function DecodeLetters(s: string, n: nat): (r: Option<seq<Byte>>)
    requires 2 * n <= |s|
    ensures r.Some? ==> |r.value| == n
    decreases n
  {
    if n == 0 then Some([])
    else match DecodeLetters(s, n - 1)
      case None => None
      case Some(d) =>
        match ByteOf(s[2 * n - 2], s[2 * n - 1])
        case None => None
        case Some(b) => Some(d + [b])
  }

  /** Splits a name back into its digest and its flags. */
  function DecodeName(name: string): (r: Option<(seq<Byte>, string)>)
    ensures r.Some? ==> |r.value.0| == DigestSize
  {
    if |name| < HeaderLength || name[..4] != "tce-" || name[HeaderLength - 1] != '_' then None
    else match DecodeLetters(name[4..HeaderLength - 1], DigestSize)
      case None => None
      case Some(d) => Some((d, name[HeaderLength..]))
  }

  /** Byte `j` of a decoding is the one letter pair `j` spells. */
  lemma {:induction false} DecodeLettersAt(s: string, n: nat, j: nat)
    requires 2 * n <= |s| && DecodeLetters(s, n).Some? && j < n
    ensures ByteOf(s[2 * j], s[2 * j + 1]) == Some(DecodeLetters(s, n).value[j])
    decreases n
  {
    if j < n - 1 {
      DecodeLettersAt(s, n - 1, j);
    }
  }

  /** Letter pair `j` of `s` spells a byte. */
  predicate PairOk(s: string, j: nat)
  {
    2 * j + 1 < |s| && ByteOf(s[2 * j], s[2 * j + 1]).Some?
  }

  /** Decoding succeeds exactly when every letter pair spells a byte. */
  lemma {:induction false} DecodeLettersSome(s: string, n: nat)
    requires 2 * n <= |s|
    ensures DecodeLetters(s, n).Some? <==> forall j :: 0 <= j < n ==> PairOk(s, j)
    decreases n
  {
    if n > 0 {
      DecodeLettersSome(s, n - 1);
      assert PairOk(s, n - 1) <==> ByteOf(s[2 * n - 2], s[2 * n - 1]).Some?;
    }
  }

  /** The digest's letters decode to the digest. */
  lemma DecodeLettersOf(d: seq<Byte>)
    ensures DecodeLetters(Letters(d), |d|) == Some(d)
  {
    var s := Letters(d);
    forall j | 0 <= j < |d| ensures PairOk(s, j) {
      LettersAt(d, j);
      ByteOfLetters(d[j]);
    }
    DecodeLettersSome(s, |d|);
    var v := DecodeLetters(s, |d|).value;
    forall j | 0 <= j < |d| ensures v[j] == d[j] {
      DecodeLettersAt(s, |d|, j);
      LettersAt(d, j);
      ByteOfLetters(d[j]);
    }
    assert v == d;
  }

  lemma LettersOfDecode(s: string, n: nat)
    requires 2 * n <= |s| && DecodeLetters(s, n).Some?
    ensures Letters(DecodeLetters(s, n).value) == s[..2 * n]
  {
    var d := DecodeLetters(s, n).value;
    var p := s[..2 * n];
    forall i | 0 <= i < 2 * n ensures Letters(d)[i] == p[i] {
      var j := i / 2;
      DecodeLettersAt(s, n, j);
      LettersAt(d, j);
      assert LowLetter(d[j]) == s[2 * j] && HighLetter(d[j]) == s[2 * j + 1];
      assert i == 2 * j || i == 2 * j + 1;
    }
    assert Letters(d) == p;
  }

  /** Every name decodes to the digest and the flags it was built from. */
  lemma NameRoundTrip(d: seq<Byte>, flags: Option<string>)
    requires |d| == DigestSize
    ensures DecodeName(Name(d, flags)) == Some((d, Copied(flags, CorrectedLimit)))
  {
    NameParts(d, Copied(flags, CorrectedLimit));
    DecodeLettersOf(d);
  }

  lemma NameParts(d: seq<Byte>, c: string)
    requires |d| == DigestSize
    ensures var name := Header(d) + c;
      && name[..4] == "tce-" && name[4..HeaderLength - 1] == Letters(d)
      && name[HeaderLength - 1] == '_' && name[HeaderLength..] == c
  {
    ConcatParts("tce-", Letters(d), "_", c);
  }

  lemma ConcatParts<T>(a: seq<T>, b: seq<T>, c: seq<T>, e: seq<T>)
    ensures var s := a + b + c + e;
      && s[..|a|] == a && s[|a|..|a| + |b|] == b && s[|a| + |b|..|a| + |b| + |c|] == c && s[|a| + |b| + |c|..] == e
  {
    var s := a + b + c + e;
    assert s[..|a|] == a;
    assert s[|a|..|a| + |b|] == b;
    assert s[|a| + |b|..|a| + |b| + |c|] == c;
    assert s[|a| + |b| + |c|..] == e;
  }

  /** And every string that decodes is the name of what it decodes to: the
      encoding has no other spelling. */
  lemma DecodeNameSpells(name: string)
    requires DecodeName(name).Some?
    ensures Header(DecodeName(name).value.0) + DecodeName(name).value.1 == name
  {
    var s := name[4..HeaderLength - 1];
    LettersOfDecode(s, DigestSize);
    assert s[..2 * DigestSize] == s;
    SplitThree(name, 4, HeaderLength - 1, HeaderLength);
    assert name[HeaderLength - 1..HeaderLength] == "_";
  }

  lemma SplitTwo<T>(a: seq<T>, i: nat, j: nat)
    requires i <= j <= |a|
    ensures a == a[..i] + a[i..j] + a[j..]
  {
  }

  lemma SplitThree<T>(a: seq<T>, i: nat, j: nat, k: nat)
    requires i <= j <= k <= |a|
    ensures a == a[..i] + a[i..j] + a[j..k] + a[k..]
  {
  }

  /** `strncpy(dst + at, src, n)` for a C string `src`: its characters, at
      most `n` of them, then NULs up to `n`. */
  method StrNCopy(dst: array<char>, at: nat, src: string, n: nat)
    requires at + n <= dst.Length && NulFree(src)
    modifies dst
    ensures forall k :: 0 <= k < dst.Length ==>
      dst[k] == if at <= k < at + n then (if k - at < |src| then src[k - at] else '\0') else old(dst[k])
  {
    var k := 0;
    while k < n && k < |src|
      invariant 0 <= k <= n && k <= |src|
      invariant forall i :: 0 <= i < dst.Length ==> dst[i] == if at <= i < at + k then src[i - at] else old(dst[i])
    {
      dst[at + k] := src[k];
      k := k + 1;
    }
    while k < n
      invariant 0 <= k <= n
      invariant forall i :: 0 <= i < dst.Length ==>
        dst[i] == if at <= i < at + k then (if i - at < |src| then src[i - at] else '\0') else old(dst[i])
    {
      dst[at + k] := '\0';
      k := k + 1;
    }
  }

  /** The header part of `pocl_tce_build_hash`: "tce-", then the two
      letters of each digest byte in turn, then '_', into a zero-filled
      buffer. */
  method WriteHeader(buf: array<char>, digest: seq<Byte>)
    requires buf.Length == BufferSize && |digest| == DigestSize
    requires forall k :: 0 <= k < BufferSize ==> buf[k] == '\0'
    modifies buf
    ensures buf[0] == 't' && buf[1] == 'c' && buf[2] == 'e' && buf[3] == '-'
    ensures forall j :: 0 <= j < |digest| ==> buf[4 + 2 * j] == LowLetter(digest[j]) && buf[5 + 2 * j] == HighLetter(digest[j])
    ensures buf[HeaderLength - 1] == '_'
    ensures forall k :: HeaderLength <= k < BufferSize ==> buf[k] == '\0'
  {
    buf[0], buf[1], buf[2], buf[3] := 't', 'c', 'e', '-';
    var i := 0;
    while i < |digest|
      invariant 0 <= i <= |digest|
      invariant buf[0] == 't' && buf[1] == 'c' && buf[2] == 'e' && buf[3] == '-'
      invariant forall j :: 0 <= j < i ==> buf[4 + 2 * j] == LowLetter(digest[j]) && buf[5 + 2 * j] == HighLetter(digest[j])
      invariant forall k :: 4 + 2 * i <= k < BufferSize ==> buf[k] == '\0'
    {
      buf[4 + 2 * i], buf[5 + 2 * i] := LowLetter(digest[i]), HighLetter(digest[i]);
      i := i + 1;
    }
    buf[HeaderLength - 1] := '_';
  }

  /** Letters laid out pair by pair, low nibble first, are `Letters`. */
  lemma LettersIs(l: string, d: seq<Byte>)
    requires |l| == 2 * |d|
    requires forall j :: 0 <= j < |d| ==> l[2 * j] == LowLetter(d[j]) && l[2 * j + 1] == HighLetter(d[j])
    ensures l == Letters(d)
  {
    forall i | 0 <= i < |l| ensures l[i] == Letters(d)[i] {
      var j := i / 2;
      LettersAt(d, j);
      assert l[2 * j] == LowLetter(d[j]) && l[2 * j + 1] == HighLetter(d[j]);
    }
  }

  /** A buffer laid out as `WriteHeader` and then `strncpy` with the
      corrected count leave it is `HashBuffer`. */
  lemma BufferIs(b: string, digest: seq<Byte>, flags: Option<string>)
    requires |b| == BufferSize && |digest| == DigestSize
    requires b[0] == 't' && b[1] == 'c' && b[2] == 'e' && b[3] == '-'
    requires forall j :: 0 <= j < |digest| ==> b[4 + 2 * j] == LowLetter(digest[j]) && b[5 + 2 * j] == HighLetter(digest[j])
    requires b[HeaderLength - 1] == '_'
    requires forall k :: HeaderLength <= k < BufferSize ==>
      b[k] == if flags.Some? && k - HeaderLength < Min(|flags.value|, CorrectedLimit) then flags.value[k - HeaderLength] else '\0'
    ensures b == HashBuffer(digest, flags, CorrectedLimit)
  {
    HeaderIs(b, digest);
    var c := Copied(flags, CorrectedLimit);
    var t := c + Zeros(AsWrittenLimit - |c|);
    TailIs(b, flags, t);
    assert HashBuffer(digest, flags, CorrectedLimit) == Header(digest) + t;
    assert b == b[..HeaderLength] + b[HeaderLength..];
  }

  lemma HeaderIs(b: string, digest: seq<Byte>)
    requires |b| >= HeaderLength && |digest| == DigestSize
    requires b[0] == 't' && b[1] == 'c' && b[2] == 'e' && b[3] == '-'
    requires forall j :: 0 <= j < |digest| ==> b[4 + 2 * j] == LowLetter(digest[j]) && b[5 + 2 * j] == HighLetter(digest[j])
    requires b[HeaderLength - 1] == '_'
    ensures b[..HeaderLength] == Header(digest)
  {
    var h := b[..HeaderLength];
    var l := h[4..HeaderLength - 1];
    forall j | 0 <= j < |digest| ensures l[2 * j] == LowLetter(digest[j]) && l[2 * j + 1] == HighLetter(digest[j]) {
      assert l[2 * j] == b[4 + 2 * j] && l[2 * j + 1] == b[5 + 2 * j];
    }
    LettersIs(l, digest);
    assert h[..4] == "tce-";
    assert h[HeaderLength - 1..] == "_";
    SplitTwo(h, 4, HeaderLength - 1);
  }

  lemma TailIs(b: string, flags: Option<string>, t: string)
    requires |b| == BufferSize
    requires forall k :: HeaderLength <= k < BufferSize ==>
      b[k] == if flags.Some? && k - HeaderLength < Min(|flags.value|, CorrectedLimit) then flags.value[k - HeaderLength] else '\0'
    requires t == Copied(flags, CorrectedLimit) + Zeros(AsWrittenLimit - |Copied(flags, CorrectedLimit)|)
    ensures b[HeaderLength..] == t
  {
    forall k | 0 <= k < |t| ensures b[HeaderLength..][k] == t[k] {
      assert b[HeaderLength..][k] == b[HeaderLength + k];
    }
  }

  /** `pocl_tce_build_hash`, with the corrected count: a fresh buffer that
      holds `HashBuffer` for the digest and the flags (`None` when the
      extra-flags option is not set). */
  method BuildHashBuffer(digest: seq<Byte>, flags: Option<string>) returns (result: array<char>)
    requires |digest| == DigestSize && (flags.Some? ==> NulFree(flags.value))
    ensures fresh(result)
    ensures result[..] == HashBuffer(digest, flags, CorrectedLimit)
  {
    result := new char[BufferSize](_ => '\0');
    WriteHeader(result, digest);
    if flags.Some? {
      StrNCopy(result, HeaderLength, flags.value, CorrectedLimit);
    }
    BufferIs(result[..], digest, flags);
  }
}
