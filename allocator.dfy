/**
 * The chunk allocator the driver consumes (`init_mem_region`, `alloc_buffer`,
 * `free_chunk`, `create_sub_chunk`). Its own split/coalesce algorithm is not
 * part of this model: a region here hands out chunks by bumping a pointer,
 * which is one allocator meeting the contract the driver relies on: every
 * chunk handed out is fresh, lies inside the region and overlaps no live
 * chunk, or the allocation fails.
 */
module Allocator {
  import opened Wrappers

  datatype RegionKind = LocalMem | GlobalMem

  /** `chunk_info_t`: a device address range; `parent` is set for a
      sub-chunk view of an existing chunk. */
  datatype Chunk = Chunk(region: RegionKind, id: nat, start: int, size: nat, parent: Option<nat>)

  datatype Region = Region(kind: RegionKind, start: int, size: nat, next: int, nextId: nat, live: set<Chunk>)

  predicate Disjoint(a: Chunk, b: Chunk)
  {
    a.start + a.size <= b.start || b.start + b.size <= a.start
  }

  /** The allocator's invariant: live chunks are this region's own top-level
      chunks, inside the part handed out so far, pairwise disjoint. */
  ghost predicate Valid(r: Region)
  {
    && r.start <= r.next <= r.start + r.size
    && (forall c {:trigger c in r.live} :: c in r.live ==>
          c.region == r.kind && c.parent.None? && c.id < r.nextId &&
          r.start <= c.start && c.start + c.size <= r.next)
    && (forall a, b {:trigger Disjoint(a, b)} :: a in r.live && b in r.live && a != b ==> Disjoint(a, b))
  }

  /** `init_mem_region`: an empty region over `size` bytes from `start`. */
  function InitRegion(kind: RegionKind, start: int, size: nat): (r: Region)
    ensures Valid(r) && r.live == {} && r.kind == kind
    ensures r.start == start && r.size == size
  {
    Region(kind, start, size, start, 0, {})
  }

  /** `alloc_buffer`: a fresh chunk of `size` bytes, or failure with the
      region unchanged. */
  function Alloc(r: Region, size: nat): (res: (Region, Option<Chunk>))
    requires Valid(r)
    ensures Valid(res.0) && res.0.kind == r.kind && res.0.start == r.start && res.0.size == r.size
    ensures res.1.None? ==> res.0 == r
    ensures res.1.Some? ==>
      var c := res.1.value;
      && c !in r.live && c.size == size && c.region == r.kind && c.parent.None?
      && r.start <= c.start && c.start + c.size <= r.start + r.size
      && (forall d {:trigger d in r.live} :: d in r.live ==> Disjoint(c, d))
      && res.0.live == r.live + {c}
  {
    if r.next + size <= r.start + r.size then
      var c := Chunk(r.kind, r.nextId, r.next, size, None);
      (r.(next := r.next + size, nextId := r.nextId + 1, live := r.live + {c}), Some(c))
    else
      (r, None)
  }

  /** `free_chunk`: the chunk goes back to the region. */
  function Free(r: Region, c: Chunk): (r': Region)
    requires Valid(r)
    ensures Valid(r') && r'.kind == r.kind && r'.start == r.start && r'.size == r.size
    ensures r'.live == r.live - {c}
  {
    r.(live := r.live - {c})
  }

  /** `create_sub_chunk`: a view of `size` bytes at `origin` inside `c`. */
  function SubChunk(c: Chunk, origin: nat, size: nat): (s: Chunk)
    requires origin + size <= c.size
    ensures s.parent == Some(c.id) && s.region == c.region && s.size == size
    ensures c.start <= s.start && s.start + s.size <= c.start + c.size
    ensures s.start - c.start == origin
  {
    Chunk(c.region, c.id, c.start + origin, size, Some(c.id))
  }
}
