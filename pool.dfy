/**
  The huge-page memory pool of the benchmark: `HugePool` and its constructor,
  its two byte views and its release.

  Addresses and lengths are Rust `usize` values. Additions that can overflow
  are modelled as wrapping (the behaviour of a release build). The answer of
  `mmap` is an input: the raw pointer value, where `MAP_FAILED` is `(void *) -1`.
 */
module Pool {

  /** The page size the pool aligns to and pads by. */
  const PAGE: nat := 4096

  const USIZE_MODULUS: nat := 0x1_0000_0000_0000_0000

  /** A 64-bit `usize`. */
  type Usize = x: nat | x < 0x1_0000_0000_0000_0000

  /** `libc::MAP_FAILED`, the pointer `(void *) -1` read as a `usize`. */
  const MAP_FAILED: Usize := 0xFFFF_FFFF_FFFF_FFFF

  newtype byte = x: int | 0 <= x < 256

  predicate IsPageAligned(x: int) {
    x % PAGE == 0
  }

  /** `usize` addition as a release build performs it: modulo 2^64. */
  function WrappingAdd(a: Usize, b: Usize): (r: Usize)
    ensures a + b < USIZE_MODULUS ==> r == a + b
    ensures a + b >= USIZE_MODULUS ==> r + USIZE_MODULUS == a + b
  {
    (a + b) % USIZE_MODULUS
  }

  /** A half-open range of addresses `[start, start + size)`. */
  datatype Region = Region(start: nat, size: nat)

  predicate Within(inner: Region, outer: Region) {
    outer.start <= inner.start && inner.start + inner.size <= outer.start + outer.size
  }

  /**
    The record `new` builds: the address `mmap` returned, the page-aligned
    base the views start at, and the length that was mapped.
   */
  datatype HugePool = HugePool(pool: Usize, aligned: Usize, len: Usize)

  /**
    The length `new(len)` asks `mmap` for, or `None` when it returns before
    calling `mmap` at all.
   */
  function MmapLength(len: Usize): (r: Option<Usize>)
    ensures r.None? <==> !IsPageAligned(len)
    ensures r.Some? && len + PAGE < USIZE_MODULUS ==> r.value == len + PAGE
  {
    if len % PAGE != 0 then None else Some(WrappingAdd(len, PAGE))
  }

  /** `4096 * ((ptr + 4095) / 4096)` in `usize` arithmetic. */
  function RoundUpToPage(ptr: Usize): (r: Usize)
    ensures IsPageAligned(r)
    ensures r <= WrappingAdd(ptr, PAGE - 1) < r + PAGE
  {
    var s := WrappingAdd(ptr, PAGE - 1);
    PAGE * (s / PAGE)
  }

  /**
    `HugePool::new(len)`, where `mapped` is what `mmap` returns when it is
    called. Both successful branches of the source agree with the round-up
    formula, so the aligned base is `RoundUpToPage(mapped)` in either case.
   */
  function New(len: Usize, mapped: Usize): (r: Option<HugePool>)
    ensures r.Some? <==> IsPageAligned(len) && mapped != MAP_FAILED
    ensures r.Some? ==> r.value.pool == mapped && MmapLength(len) == Some(r.value.len)
    ensures r.Some? ==> r.value.aligned == RoundUpToPage(mapped)
  {
    if len % PAGE != 0 then None
    else
      var padded := WrappingAdd(len, PAGE);
      if mapped == MAP_FAILED then None
      else if mapped % PAGE == 0 then
        RoundUpFixesAligned(mapped);
        Some(HugePool(mapped, mapped, padded))
      else
        Some(HugePool(mapped, RoundUpToPage(mapped), padded))
  }

  /**
    What `mmap` guarantees the caller: either it fails, or it maps `length`
    bytes at `ptr`, which needs a nonzero length and a range that lies inside
    the address space.
   */
  predicate MmapContract(length: Usize, ptr: Usize) {
    ptr == MAP_FAILED || (0 < length && ptr + length <= USIZE_MODULUS)
  }

  /** `mapped` is an answer `mmap` may give to the call `new(len)` makes, if it makes one. */
  predicate MmapAnswers(len: Usize, mapped: Usize) {
    match MmapLength(len)
    case None => true
    case Some(length) => MmapContract(length, mapped)
  }

  /**
    The shape of every pool `new` can return: the mapping is a whole number
    of pages inside the address space, at least one page long, and the
    aligned base is page-aligned and less than one page past its start.
   */
  predicate Wellformed(p: HugePool) {
    && PAGE <= p.len && IsPageAligned(p.len)
    && p.pool + p.len <= USIZE_MODULUS
    && IsPageAligned(p.aligned)
    && p.pool <= p.aligned < p.pool + PAGE
  }

  /** The length the caller of `new` asked for: the mapping less the padding page. */
  function Capacity(p: HugePool): nat
    requires PAGE <= p.len
  {
    p.len - PAGE
  }

  /** The whole mapping `[pool, pool + len)`. */
  function MappedRegion(p: HugePool): Region {
    Region(p.pool, p.len)
  }

  /** The bytes the caller of `new` asked for, at the aligned base. */
  function RequestedRegion(p: HugePool): Region
    requires PAGE <= p.len
  {
    Region(p.aligned, Capacity(p))
  }

  lemma RoundUpFixesAligned(ptr: Usize)
    requires IsPageAligned(ptr)
    ensures RoundUpToPage(ptr) == ptr
  {
    var q := ptr / PAGE;
    assert ptr == PAGE * q;
    assert ptr + (PAGE - 1) < USIZE_MODULUS;
    assert (ptr + (PAGE - 1)) / PAGE == q;
  }

  /**
    Without wrap-around, the round-up is the least multiple of the page size
    that is at least `ptr`, hence less than one page past it.
   */
  lemma RoundUpIsLeastPageMultiple(ptr: Usize)
    requires ptr + (PAGE - 1) < USIZE_MODULUS
    ensures IsPageAligned(RoundUpToPage(ptr))
    ensures ptr <= RoundUpToPage(ptr) < ptr + PAGE
    ensures forall m: int :: IsPageAligned(m) && ptr <= m ==> RoundUpToPage(ptr) <= m
  {
    var s := ptr + (PAGE - 1);
    var q := s / PAGE;
    var rem := s % PAGE;
    assert s == PAGE * q + rem;
    var r := RoundUpToPage(ptr);
    assert r == PAGE * q;
    assert r % PAGE == 0 by {
      assert (PAGE * q) % PAGE == 0;
    }
    forall m: int | IsPageAligned(m) && ptr <= m
      ensures r <= m
    {
      var j := m / PAGE;
      assert m == PAGE * j;
      assert q <= j;
    }
  }

  /** A page-aligned length below 2^64 plus one page either fits or wraps to exactly zero. */
  lemma PaddingWrapsOnlyToZero(len: Usize)
    requires IsPageAligned(len)
    ensures len + PAGE <= USIZE_MODULUS
    ensures WrappingAdd(len, PAGE) == 0 || len + PAGE < USIZE_MODULUS
  {
    var q := len / PAGE;
    assert len == PAGE * q;
    assert q < USIZE_MODULUS / PAGE;
    assert PAGE * q <= PAGE * (USIZE_MODULUS / PAGE - 1);
  }

  /**
    The main property of `new`: when `mmap` keeps its contract and `new`
    returns a pool, the pool is well formed, it maps exactly the requested
    length plus one page, its aligned base is the least page boundary at or
    after the mapped address (the address itself when that is aligned), and
    the requested bytes at the aligned base lie inside the mapping.
   */
  lemma NewReturnsAlignedPool(len: Usize, mapped: Usize)
    requires MmapAnswers(len, mapped)
    requires New(len, mapped).Some?
    ensures Wellformed(New(len, mapped).value)
    ensures New(len, mapped).value.len == len + PAGE
    ensures Capacity(New(len, mapped).value) == len
    ensures IsPageAligned(mapped) ==> New(len, mapped).value.aligned == mapped
    ensures forall m: int :: IsPageAligned(m) && mapped <= m ==> New(len, mapped).value.aligned <= m
    ensures Within(RequestedRegion(New(len, mapped).value), MappedRegion(New(len, mapped).value))
  {
    var p := New(len, mapped).value;
    PaddingWrapsOnlyToZero(len);
    assert MmapContract(p.len, mapped);
    assert p.len == len + PAGE;
    RoundUpIsLeastPageMultiple(mapped);
    if IsPageAligned(mapped) {
      RoundUpFixesAligned(mapped);
    }
  }

  /**
    `drop` unmaps exactly the region `mmap` mapped, padding page included,
    and not just the aligned part the views use.
   */
  lemma DropReleasesWholeMapping(len: Usize, mapped: Usize)
    requires MmapAnswers(len, mapped)
    requires New(len, mapped).Some?
    ensures MappedRegion(New(len, mapped).value) == Region(mapped, MmapLength(len).value)
    ensures Within(RequestedRegion(New(len, mapped).value), MappedRegion(New(len, mapped).value))
    ensures MappedRegion(New(len, mapped).value).size == len + PAGE
  {
    NewReturnsAlignedPool(len, mapped);
  }

  /** Whatever `mmap` would answer, `new` gives up before calling it on an unaligned length. */
  lemma NewRejectsBeforeMapping(len: Usize, mapped1: Usize, mapped2: Usize)
    requires !IsPageAligned(len)
    ensures MmapLength(len).None?
    ensures New(len, mapped1) == New(len, mapped2) == None
  {
  }

  /** Who may touch a view: `to_slice` lends it shared, `to_mut_slice` exclusively. */
  datatype Access = Shared | Exclusive

  datatype Slice = Slice(region: Region, access: Access)

  /**
    `to_slice(n)`: `n` bytes from the aligned base. The source does not check
    `n`; the bound is the safety condition of the raw slice it builds.
   */
  function ToSlice(p: HugePool, n: Usize): (s: Slice)
    requires Wellformed(p) && n <= Capacity(p)
    ensures s.region.start == p.aligned && IsPageAligned(s.region.start)
    ensures s.region.size == n
    ensures Within(s.region, RequestedRegion(p)) && Within(s.region, MappedRegion(p))
    ensures s.access == Shared
  {
    Slice(Region(p.aligned, n), Shared)
  }

  /** `to_mut_slice(n)`: the same bytes as `to_slice(n)`, lent for writing. */
  function ToMutSlice(p: HugePool, n: Usize): (s: Slice)
    requires Wellformed(p) && n <= Capacity(p)
    ensures s.region == ToSlice(p, n).region
    ensures Within(s.region, MappedRegion(p))
    ensures s.access == Exclusive
  {
    Slice(Region(p.aligned, n), Exclusive)
  }

  /** `as_mutref`: the aligned base as a raw pointer. */
  function AsMutRef(p: HugePool): (ptr: Usize)
    requires Wellformed(p)
    ensures IsPageAligned(ptr)
    ensures p.pool <= ptr < p.pool + PAGE
    ensures Within(Region(ptr, Capacity(p)), MappedRegion(p))
  {
    p.aligned
  }

  /**
    A live `HugePool` value with the bytes of its mapping. `mem[i]` is the
    byte at address `pool.pool + i`; `released` records that `drop` has run.
   */
  class OwnedPool {
    const pool: HugePool
    const mem: array<byte>
    ghost var released: bool

    ghost predicate Valid()
      reads this
    {
      Wellformed(pool) && mem.Length == pool.len
    }

    /** Index in `mem` of the aligned base. */
    function Base(): nat
      requires Wellformed(pool)
    {
      pool.aligned - pool.pool
    }

    /** Taking ownership of the mapping `new` returned. */
    constructor (p: HugePool)
      requires Wellformed(p)
      ensures Valid() && pool == p && !released && fresh(mem)
    {
      pool := p;
      mem := new byte[p.len];
      released := false;
    }

    /** The bytes `to_slice(n)` lends. */
    function SliceBytes(n: nat): (b: seq<byte>)
      requires Valid() && n <= Capacity(pool)
      reads this, mem
      ensures |b| == n
      // The bytes are those of the region `to_slice(n)` lends: index `i` is address `pool.pool + i`.
      ensures ToSlice(pool, n).region == Region(pool.pool + Base(), |b|)
    {
      mem[Base()..Base() + n]
    }

    /**
      Overwriting `to_mut_slice(|bytes|)` with `bytes`, as `thread_rng().fill`
      does with fresh random bytes; no other byte of the mapping changes.
     */
    method Fill(bytes: seq<byte>)
      requires Valid() && !released && |bytes| <= Capacity(pool)
      modifies mem
      ensures SliceBytes(|bytes|) == bytes
      ensures forall i :: 0 <= i < mem.Length && !(Base() <= i < Base() + |bytes|) ==> mem[i] == old(mem[i])
    {
      var b := Base();
      forall i | b <= i < b + |bytes| {
        mem[i] := bytes[i - b];
      }
    }

    /** `Drop::drop`: unmaps the whole mapping, once. */
    method Drop() returns (unmapped: Region)
      requires Valid() && !released
      modifies this
      ensures released
      ensures unmapped == MappedRegion(pool)
    {
      released := true;
      unmapped := Region(pool.pool, pool.len);
    }
  }

  datatype Option<T> = None | Some(value: T)
}
