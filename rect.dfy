/**
 * The transfers of a rectangular read or write (`pocl_tce_write_rect`,
 * `pocl_tce_read_rect`): region[1]·region[2] rows of region[0] bytes, the
 * buffer offset of row (j, k) being origin[0] + row_pitch·(origin[1] + j) +
 * slice_pitch·(origin[2] + k), as in section 5.2.2 of the OpenCL 1.2
 * specification.
 */
module Rect {

  /** One row copy: its byte offset in the buffer and in host memory. */
  datatype Transfer = Transfer(bufferOffset: int, hostOffset: int, len: nat)

  predicate IsTriple(v: seq<nat>)
  {
    |v| == 3
  }

  function BaseOffset(origin: seq<nat>, rowPitch: nat, slicePitch: nat): int
    requires IsTriple(origin)
  {
    origin[0] + rowPitch * origin[1] + slicePitch * origin[2]
  }

  /** The copy of row j of slice k. */
  function RowTransfer(bufferOrigin: seq<nat>, hostOrigin: seq<nat>, region: seq<nat>,
                       bufferRowPitch: nat, bufferSlicePitch: nat,
                       hostRowPitch: nat, hostSlicePitch: nat, j: nat, k: nat): Transfer
    requires IsTriple(bufferOrigin) && IsTriple(hostOrigin) && IsTriple(region)
  {
    Transfer(BaseOffset(bufferOrigin, bufferRowPitch, bufferSlicePitch) + bufferRowPitch * j + bufferSlicePitch * k,
             BaseOffset(hostOrigin, hostRowPitch, hostSlicePitch) + hostRowPitch * j + hostSlicePitch * k,
             region[0])
  }

  function Flatten<T>(ss: seq<seq<T>>): seq<T>
    decreases |ss|
  {
    if ss == [] then [] else ss[0] + Flatten(ss[1..])
  }

  /** All row copies: every row of slice 0, then every row of slice 1, ... */
  function RectTransfers(bufferOrigin: seq<nat>, hostOrigin: seq<nat>, region: seq<nat>,
                         bufferRowPitch: nat, bufferSlicePitch: nat,
                         hostRowPitch: nat, hostSlicePitch: nat): seq<Transfer>
    requires IsTriple(bufferOrigin) && IsTriple(hostOrigin) && IsTriple(region)
  {
    Flatten(seq(region[2], k requires 0 <= k < region[2] =>
      seq(region[1], j requires 0 <= j < region[1] =>
        RowTransfer(bufferOrigin, hostOrigin, region, bufferRowPitch, bufferSlicePitch,
                    hostRowPitch, hostSlicePitch, j, k))))
  }

  /** Every copy of a rect transfer moves one row of region[0] bytes. */
  lemma RectRowsAreRegionWide(bufferOrigin: seq<nat>, hostOrigin: seq<nat>, region: seq<nat>,
                              bufferRowPitch: nat, bufferSlicePitch: nat,
                              hostRowPitch: nat, hostSlicePitch: nat)
    requires IsTriple(bufferOrigin) && IsTriple(hostOrigin) && IsTriple(region)
    ensures
      var ts := RectTransfers(bufferOrigin, hostOrigin, region, bufferRowPitch, bufferSlicePitch,
                              hostRowPitch, hostSlicePitch);
      forall n :: 0 <= n < |ts| ==> ts[n].len == region[0]
  {
    var ss := seq(region[2], k requires 0 <= k < region[2] =>
      seq(region[1], j requires 0 <= j < region[1] =>
        RowTransfer(bufferOrigin, hostOrigin, region, bufferRowPitch, bufferSlicePitch,
                    hostRowPitch, hostSlicePitch, j, k)));
    FlattenKeepsLen(ss, region[0]);
  }

  /** Flattening rows of copies that all move `len` bytes gives copies that
      all move `len` bytes. */
  lemma {:induction false} FlattenKeepsLen(ss: seq<seq<Transfer>>, len: nat)
    requires forall i, j :: 0 <= i < |ss| && 0 <= j < |ss[i]| ==> ss[i][j].len == len
    ensures forall n :: 0 <= n < |Flatten(ss)| ==> Flatten(ss)[n].len == len
    decreases |ss|
  {
    if ss != [] {
      FlattenKeepsLen(ss[1..], len);
      assert Flatten(ss) == ss[0] + Flatten(ss[1..]);
    }
  }

  /** In a flattening of rows of equal width w, row k's element j sits at
      k·w + j. */
  lemma {:induction false} FlattenAt<T>(ss: seq<seq<T>>, w: nat, k: nat, j: nat)
    requires forall i :: 0 <= i < |ss| ==> |ss[i]| == w
    requires k < |ss| && j < w
    ensures |Flatten(ss)| == |ss| * w
    ensures k * w + j < |Flatten(ss)| && Flatten(ss)[k * w + j] == ss[k][j]
    decreases |ss|
  {
    FlattenLength(ss, w);
    if k > 0 {
      FlattenAt(ss[1..], w, k - 1, j);
      MulPred(k, w);
    }
  }

  lemma MulPred(k: nat, w: nat)
    requires k > 0
    ensures k * w == w + (k - 1) * w
  {
  }

  lemma {:induction false} FlattenLength<T>(ss: seq<seq<T>>, w: nat)
    requires forall i :: 0 <= i < |ss| ==> |ss[i]| == w
    ensures |Flatten(ss)| == |ss| * w
    decreases |ss|
  {
    if ss != [] {
      FlattenLength(ss[1..], w);
      MulPred(|ss|, w);
    }
  }

  /** Row copy number k·region[1] + j is row j of slice k. */
  lemma RectRowAt(bufferOrigin: seq<nat>, hostOrigin: seq<nat>, region: seq<nat>,
                  bufferRowPitch: nat, bufferSlicePitch: nat,
                  hostRowPitch: nat, hostSlicePitch: nat, k: nat, j: nat)
    requires IsTriple(bufferOrigin) && IsTriple(hostOrigin) && IsTriple(region)
    requires k < region[2] && j < region[1]
    ensures
      var ts := RectTransfers(bufferOrigin, hostOrigin, region, bufferRowPitch, bufferSlicePitch,
                              hostRowPitch, hostSlicePitch);
      && |ts| == region[2] * region[1]
      && k * region[1] + j < |ts|
      && ts[k * region[1] + j] == RowTransfer(bufferOrigin, hostOrigin, region, bufferRowPitch, bufferSlicePitch,
                                              hostRowPitch, hostSlicePitch, j, k)
  {
    var ss := seq(region[2], k requires 0 <= k < region[2] =>
      seq(region[1], j requires 0 <= j < region[1] =>
        RowTransfer(bufferOrigin, hostOrigin, region, bufferRowPitch, bufferSlicePitch,
                    hostRowPitch, hostSlicePitch, j, k)));
    FlattenAt(ss, region[1], k, j);
  }

  /** Row copy number n = k·region[1] + j, with the offsets the loops of a
      rect transfer compute for row j of slice k. */
  lemma RectRowIs(bufferOrigin: seq<nat>, hostOrigin: seq<nat>, region: seq<nat>,
                  bufferRowPitch: nat, bufferSlicePitch: nat,
                  hostRowPitch: nat, hostSlicePitch: nat, k: nat, j: nat, n: nat)
    requires IsTriple(bufferOrigin) && IsTriple(hostOrigin) && IsTriple(region)
    requires k < region[2] && j < region[1] && n == k * region[1] + j
    ensures
      var ts := RectTransfers(bufferOrigin, hostOrigin, region, bufferRowPitch, bufferSlicePitch,
                              hostRowPitch, hostSlicePitch);
      && n < |ts|
      && ts[n] == Transfer(BaseOffset(bufferOrigin, bufferRowPitch, bufferSlicePitch) + bufferRowPitch * j + bufferSlicePitch * k,
                           BaseOffset(hostOrigin, hostRowPitch, hostSlicePitch) + hostRowPitch * j + hostSlicePitch * k,
                           region[0])
  {
    RectRowAt(bufferOrigin, hostOrigin, region, bufferRowPitch, bufferSlicePitch,
              hostRowPitch, hostSlicePitch, k, j);
  }

  /** A rect transfer makes region[1]·region[2] row copies. */
  lemma RectCount(bufferOrigin: seq<nat>, hostOrigin: seq<nat>, region: seq<nat>,
                  bufferRowPitch: nat, bufferSlicePitch: nat,
                  hostRowPitch: nat, hostSlicePitch: nat)
    requires IsTriple(bufferOrigin) && IsTriple(hostOrigin) && IsTriple(region)
    ensures |RectTransfers(bufferOrigin, hostOrigin, region, bufferRowPitch, bufferSlicePitch,
                           hostRowPitch, hostSlicePitch)| == region[2] * region[1]
  {
    var ss := seq(region[2], k requires 0 <= k < region[2] =>
      seq(region[1], j requires 0 <= j < region[1] =>
        RowTransfer(bufferOrigin, hostOrigin, region, bufferRowPitch, bufferSlicePitch,
                    hostRowPitch, hostSlicePitch, j, k)));
    FlattenLength(ss, region[1]);
  }

  /** A rect transfer makes region[1]·region[2] copies of region[0] bytes,
      and copy number k·region[1] + j (slices outer, rows inner) is row j of
      slice k, at buffer offset origin[0] + row_pitch·(origin[1] + j) +
      slice_pitch·(origin[2] + k), and likewise on the host side. */
  lemma RectTransferAt(bufferOrigin: seq<nat>, hostOrigin: seq<nat>, region: seq<nat>,
                       bufferRowPitch: nat, bufferSlicePitch: nat,
                       hostRowPitch: nat, hostSlicePitch: nat, k: nat, j: nat)
    requires IsTriple(bufferOrigin) && IsTriple(hostOrigin) && IsTriple(region)
    requires k < region[2] && j < region[1]
    ensures
      var ts := RectTransfers(bufferOrigin, hostOrigin, region, bufferRowPitch, bufferSlicePitch,
                              hostRowPitch, hostSlicePitch);
      && |ts| == region[2] * region[1]
      && k * region[1] + j < |ts|
      && ts[k * region[1] + j] ==
         Transfer(bufferOrigin[0] + bufferRowPitch * (bufferOrigin[1] + j) + bufferSlicePitch * (bufferOrigin[2] + k),
                  hostOrigin[0] + hostRowPitch * (hostOrigin[1] + j) + hostSlicePitch * (hostOrigin[2] + k),
                  region[0])
  {
    RectRowAt(bufferOrigin, hostOrigin, region, bufferRowPitch, bufferSlicePitch,
              hostRowPitch, hostSlicePitch, k, j);
    assert bufferRowPitch * (bufferOrigin[1] + j) == bufferRowPitch * bufferOrigin[1] + bufferRowPitch * j;
    assert bufferSlicePitch * (bufferOrigin[2] + k) == bufferSlicePitch * bufferOrigin[2] + bufferSlicePitch * k;
    assert hostRowPitch * (hostOrigin[1] + j) == hostRowPitch * hostOrigin[1] + hostRowPitch * j;
    assert hostSlicePitch * (hostOrigin[2] + k) == hostSlicePitch * hostOrigin[2] + hostSlicePitch * k;
  }

  /** Every row's host bytes lie inside a host buffer of `size` bytes. */
  predicate RowsInHost(ts: seq<Transfer>, size: int)
  {
    forall i :: 0 <= i < |ts| ==> 0 <= ts[i].hostOffset && ts[i].hostOffset + ts[i].len <= size
  }

  /** Host byte `x` lies in the row copied by `t`. */
  predicate HostCovers(t: Transfer, x: int)
  {
    t.hostOffset <= x < t.hostOffset + t.len
  }

  /** `b` with `d` copied over it from offset `at` on. */
  function Splice<T>(b: seq<T>, at: nat, d: seq<T>): (r: seq<T>)
    requires at + |d| <= |b|
    ensures |r| == |b|
  {
    SplicePrefix(b, at, d, |d|)
  }

  /** `b` with the first `k` elements of `d` copied over it from `at` on. */
  function SplicePrefix<T>(b: seq<T>, at: nat, d: seq<T>, k: nat): (r: seq<T>)
    requires at + |d| <= |b| && k <= |d|
    ensures |r| == |b|
    decreases k
  {
    if k == 0 then b else SplicePrefix(b, at, d, k - 1)[at + k - 1 := d[k - 1]]
  }

  /** Each element of a splice: from `d` inside the copied range, from `b`
      outside it. */
  lemma SpliceAt<T>(b: seq<T>, at: nat, d: seq<T>, i: int)
    requires at + |d| <= |b| && 0 <= i < |b|
    ensures Splice(b, at, d)[i] == if at <= i < at + |d| then d[i - at] else b[i]
  {
    SplicePrefixAt(b, at, d, |d|, i);
  }

  lemma {:induction false} SplicePrefixAt<T>(b: seq<T>, at: nat, d: seq<T>, k: nat, i: int)
    requires at + |d| <= |b| && k <= |d| && 0 <= i < |b|
    ensures SplicePrefix(b, at, d, k)[i] == if at <= i < at + k then d[i - at] else b[i]
    decreases k
  {
    if k > 0 {
      SplicePrefixAt(b, at, d, k - 1, i);
    }
  }
}
