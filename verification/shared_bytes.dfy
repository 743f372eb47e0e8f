/** `SharedBytes`: a view `(off, len)` onto a reference-counted
    allocation whose first bytes hold a `SharedBytesMeta` header. */
module Shared {
  import opened Wrappers
  import opened Bytes
  import opened Arith
  import opened RefCount

  /** `size_of::<SharedBytesMeta>()`: a `u32` counter, the `info` byte,
      three reserved bytes and a `u32` length. */
  const META_SIZE: nat := 12
  /** `align_of::<SharedBytesMeta>()`. */
  const META_ALIGN: nat := 4
  const MAX_U32: nat := 0xFFFF_FFFF

  function Max(a: nat, b: nat): nat {
    if a < b then b else a
  }

  /** `compute_start_offset`: where the data starts after the header for
      a given alignment, i.e. the least multiple of `align` that leaves
      room for the header. */
  function ComputeStartOffset(align: nat): (off: nat)
    requires align >= 1
    ensures off % align == 0
    ensures off >= META_SIZE
    ensures off < META_SIZE + align
  {
    if align >= META_SIZE then
      MultipleMod(1, align);
      align
    else
      var diff := META_SIZE % align;
      if diff == 0 then META_SIZE
      else
        assert META_SIZE + (align - diff) == RoundUp(META_SIZE, align);
        META_SIZE + (align - diff)
  }

  /** The `info` byte written by `with_align`: the base-2 logarithm of
      the alignment in units of four bytes, after raising it to at least
      the header's own alignment. */
  function AlignInfo(align: nat): nat {
    ILog2(Max(align, META_ALIGN) / 4)
  }

  /** `align`: the alignment recorded by an `info` byte. */
  function AlignOf(info: nat): nat {
    4 * Pow2(info)
  }

  /** Recording a power-of-two alignment and reading it back gives the
      alignment, raised to at least four. */
  lemma AlignRoundTrip(align: nat)
    requires IsPowerOfTwo(align)
    ensures AlignOf(AlignInfo(align)) == Max(align, META_ALIGN)
  {
    var a := Max(align, META_ALIGN);
    if align < META_ALIGN {
      Pow2IsPowerOfTwo(0);
      assert a / 4 == 1;
    } else {
      HalfOfPowerOfTwo(a);
      HalfOfPowerOfTwo(a / 2);
      assert a / 4 == a / 2 / 2;
    }
  }

  /** An allocation: its address, the `info` byte of its header, and
      all of its bytes, header included (`meta.len` is their count). */
  datatype Allocation = Allocation(id: nat, info: nat, bytes: seq<byte>)

  /** The handle. `EMPTY` has no allocation (a null `dat_addr`). */
  datatype SharedBytes = SharedBytes(dat: Option<Allocation>, off: nat, len: nat) {
    ghost predicate Valid() {
      match dat
      case None => off == 0 && len == 0
      case Some(a) => off + len <= |a.bytes| <= MAX_U32 && a.id % META_ALIGN == 0
    }

    function Len(): nat {
      len
    }

    predicate IsEmpty() {
      len == 0
    }

    /** `as_slice`: `len` bytes starting `off` bytes into the
        allocation. */
    function AsSlice(): (s: seq<byte>)
      requires Valid()
      ensures |s| == Len()
    {
      if len == 0 then [] else dat.value.bytes[off..off + len]
    }
  }

  /** A handle together with the counts after the operation that made
      it. */
  datatype Counted = Counted(bytes: SharedBytes, counts: Counts)

  /** A handle that has an allocation owns one reference to it. */
  predicate Owned(h: SharedBytes, rc: Counts) {
    h.dat.Some? ==> Live(rc, h.dat.value.id)
  }

  function Empty(): (h: SharedBytes)
    ensures h.Valid() && h.IsEmpty() && h.AsSlice() == []
  {
    SharedBytes(None, 0, 0)
  }

  /** Whether `from_slice_aligned(d, align)` panics: the data together
      with the header must fit a `u32` size. */
  predicate FromSliceTooLarge(d: seq<byte>, align: nat) {
    |d| > 0 && |d| > MAX_U32 - ComputeStartOffset(Max(META_ALIGN, align))
  }

  /** `from_slice_aligned`: empty data gives `EMPTY`; otherwise a fresh
      allocation at address `id` (aligned as requested) holds the
      header, padding up to the start offset, and a copy of the data,
      with a count of one. */
  function FromSliceAligned(d: seq<byte>, align: nat, id: nat, rc: Counts): (r: Counted)
    requires !FromSliceTooLarge(d, align)
    requires |d| > 0 ==> IsPowerOfTwo(Max(META_ALIGN, align))
    requires |d| > 0 ==> id !in rc && id % Max(META_ALIGN, align) == 0
    ensures r.bytes.Valid() && Owned(r.bytes, r.counts)
    ensures r.bytes.AsSlice() == d
    ensures |d| == 0 ==> r == Counted(Empty(), rc)
    ensures |d| > 0 ==> (r.bytes.dat.Some?
      && r.bytes.dat.value.id == id
      && r.bytes.off == ComputeStartOffset(Max(META_ALIGN, align))
      && AlignOf(r.bytes.dat.value.info) == Max(META_ALIGN, align)
      && r.counts == rc[id := 1])
  {
    if |d| == 0 then Counted(Empty(), rc)
    else
      var a := Max(META_ALIGN, align);
      var off := ComputeStartOffset(a);
      AlignRoundTrip(a);
      assert a == Max(a, META_ALIGN);
      AlignedAddress(id, a);
      var bytes := Zeros(off) + d;
      assert bytes[off..off + |d|] == d;
      var alloc := Allocation(id, AlignInfo(a), bytes);
      Counted(SharedBytes(Some(alloc), off, |d|), rc[id := 1])
  }

  /** An address aligned to a power of two of at least four is aligned
      to four, so its low byte decodes as a `Shared` tag. */
  lemma AlignedAddress(id: nat, a: nat)
    requires IsPowerOfTwo(a) && a >= META_ALIGN && id % a == 0
    ensures id % META_ALIGN == 0
  {
    HalfOfPowerOfTwo(a);
    HalfOfPowerOfTwo(a / 2);
    var k := a / 2 / 2;
    assert a == k * 4;
    var q := id / a;
    assert id == q * a;
    MulAssoc(q, k, 4);
    MultipleMod(q * k, 4);
  }

  lemma MulAssoc(x: nat, y: nat, z: nat)
    ensures x * (y * z) == (x * y) * z
  {
  }

  /** `from_slice`: `from_slice_aligned` with the header's alignment. */
  function FromSlice(d: seq<byte>, id: nat, rc: Counts): (r: Counted)
    requires !FromSliceTooLarge(d, META_ALIGN)
    requires |d| > 0 ==> id !in rc && id % META_ALIGN == 0
    ensures r.bytes.Valid() && Owned(r.bytes, r.counts)
    ensures r.bytes.AsSlice() == d
    ensures |d| == 0 ==> r == Counted(Empty(), rc)
    ensures |d| > 0 ==> r.counts == rc[id := 1] && r.bytes.off == META_SIZE
  {
    Pow2IsPowerOfTwo(2);
    FromSliceAligned(d, META_ALIGN, id, rc)
  }

  /** `is_unique`: no allocation, or a count of exactly one. */
  predicate IsUnique(h: SharedBytes, rc: Counts)
    requires Owned(h, rc)
  {
    h.dat.None? || rc[h.dat.value.id] == 1
  }

  /** `sliced(offset, len)`: panics unless `offset + len <= len()`. An
      empty result is `EMPTY` and leaves the count alone; otherwise the
      new handle shares the allocation and takes one more reference. */
  function Sliced(h: SharedBytes, offset: nat, len: nat, rc: Counts): (r: Counted)
    requires h.Valid() && Owned(h, rc)
    requires offset + len <= h.Len()
    ensures r.bytes.Valid() && Owned(r.bytes, r.counts)
    ensures r.bytes.AsSlice() == h.AsSlice()[offset..offset + len]
    ensures len == 0 ==> r == Counted(Empty(), rc)
    ensures len > 0 ==> (r.bytes.dat == h.dat
      && r.counts == Acquire(rc, h.dat.value.id))
  {
    if len == 0 then Counted(Empty(), rc)
    else Counted(SlicedView(h, offset, len), Acquire(rc, h.dat.value.id))
  }

  /** The handle `sliced` returns, without its effect on the count:
      `EMPTY` for an empty range, else the narrowed view on the same
      allocation. */
  function SlicedView(h: SharedBytes, offset: nat, len: nat): (r: SharedBytes)
    requires h.Valid()
    requires offset + len <= h.Len()
    ensures r.Valid() && r.Len() == len
    ensures r.AsSlice() == h.AsSlice()[offset..offset + len]
    ensures len > 0 ==> r.dat == h.dat
  {
    if len == 0 then Empty() else SharedBytes(h.dat, h.off + offset, len)
  }

  /** `sliced_range` over the normalised range `start..end`: asserts
      `end >= start`, then `sliced(start, end - start)`. */
  function SlicedRange(h: SharedBytes, start: nat, end: nat, rc: Counts): (r: Counted)
    requires h.Valid() && Owned(h, rc)
    requires start <= end <= h.Len()
    ensures r.bytes.Valid() && Owned(r.bytes, r.counts)
    ensures r.bytes.AsSlice() == h.AsSlice()[start..end]
  {
    Sliced(h, start, end - start, rc)
  }

  /** `make_sliced(offset, len)` and `into_sliced`: the same bounds
      checks, then the view moves within the same allocation; no count
      changes, and an empty result keeps its allocation. */
  function MakeSliced(h: SharedBytes, offset: nat, len: nat): (r: SharedBytes)
    requires h.Valid()
    requires offset + len <= h.Len()
    ensures r.Valid() && r.dat == h.dat
    ensures r.Len() == len
    ensures r.AsSlice() == h.AsSlice()[offset..offset + len]
  {
    SharedBytes(h.dat, h.off + offset, len)
  }

  /** `make_sliced_range` and `into_sliced_range` over `start..end`. */
  function MakeSlicedRange(h: SharedBytes, start: nat, end: nat): (r: SharedBytes)
    requires h.Valid()
    requires start <= end <= h.Len()
    ensures r.Valid() && r.dat == h.dat
    ensures r.AsSlice() == h.AsSlice()[start..end]
  {
    MakeSliced(h, start, end - start)
  }

  /** Narrowing twice is narrowing once by the combined offset. */
  lemma MakeSlicedTwice(h: SharedBytes, o1: nat, l1: nat, o2: nat, l2: nat)
    requires h.Valid()
    requires o1 + l1 <= h.Len() && o2 + l2 <= l1
    ensures MakeSliced(MakeSliced(h, o1, l1), o2, l2) == MakeSliced(h, o1 + o2, l2)
  {
  }

  /** `clone`: an empty or null handle clones to `EMPTY`; otherwise the
      same view with one more reference. */
  function Clone(h: SharedBytes, rc: Counts): (r: Counted)
    requires h.Valid() && Owned(h, rc)
    ensures r.bytes.Valid() && Owned(r.bytes, r.counts)
    ensures r.bytes.AsSlice() == h.AsSlice()
    ensures h.len == 0 || h.dat.None? ==> r == Counted(Empty(), rc)
    ensures h.len > 0 && h.dat.Some? ==> (r.bytes == h
      && r.counts == Acquire(rc, h.dat.value.id))
  {
    if h.len == 0 then Counted(Empty(), rc)
    else if h.dat.None? then Counted(Empty(), rc)
    else Counted(h, Acquire(rc, h.dat.value.id))
  }

  /** `drop`: nothing for a null handle; otherwise one reference is
      released and the allocation is freed when it was the last. */
  function Drop(h: SharedBytes, rc: Counts): (r: Released)
    requires Owned(h, rc)
    ensures h.dat.None? ==> r == Released(rc, false)
    ensures h.dat.Some? ==> (r.freed <==> rc[h.dat.value.id] == 1)
    ensures h.dat.Some? && r.freed ==> h.dat.value.id !in r.counts
    ensures h.dat.Some? && !r.freed ==> (h.dat.value.id in r.counts
      && r.counts[h.dat.value.id] == rc[h.dat.value.id] - 1)
  {
    match h.dat
    case None => Released(rc, false)
    case Some(a) => Release(rc, a.id)
  }

  /** Dropping a clone restores the counts. */
  lemma CloneThenDrop(h: SharedBytes, rc: Counts)
    requires h.Valid() && Owned(h, rc)
    ensures Drop(Clone(h, rc).bytes, Clone(h, rc).counts) == Released(rc, false)
  {
    if h.len > 0 && h.dat.Some? {
      AcquireRelease(rc, h.dat.value.id);
    }
  }

  /** Dropping a slice restores the counts. */
  lemma SlicedThenDrop(h: SharedBytes, offset: nat, len: nat, rc: Counts)
    requires h.Valid() && Owned(h, rc)
    requires offset + len <= h.Len()
    ensures Drop(Sliced(h, offset, len, rc).bytes, Sliced(h, offset, len, rc).counts) == Released(rc, false)
  {
    if len > 0 {
      AcquireRelease(rc, h.dat.value.id);
    }
  }

  /** `Ord`: the byte-lexicographic order of the viewed bytes. */
  function Cmp(a: SharedBytes, b: SharedBytes): Ordering
    requires a.Valid() && b.Valid()
  {
    LexCmp(a.AsSlice(), b.AsSlice())
  }

  /** `Eq` and `Ord` agree, and both look at the bytes only: handles on
      different allocations or offsets compare equal when their bytes
      do. */
  lemma CmpEqualIff(a: SharedBytes, b: SharedBytes)
    requires a.Valid() && b.Valid()
    ensures Cmp(a, b) == Equal <==> a.AsSlice() == b.AsSlice()
  {
    LexCmpEqualIff(a.AsSlice(), b.AsSlice());
  }

  /** The counts through `from_slice`, `clone`, `sliced(1, 8)` and two
      drops: 1, 2, 3, 2, 1. */
  lemma CountScenario(id: nat)
    requires id % META_ALIGN == 0
    ensures var hello: seq<byte> := [0x68, 0x65, 0x6C, 0x6C, 0x6F, 0x20, 0x77, 0x6F, 0x72, 0x6C, 0x64];
      var s0 := FromSlice(hello, id, map[]);
      var s1 := Clone(s0.bytes, s0.counts);
      var s2 := Sliced(s1.bytes, 1, 8, s1.counts);
      var d0 := Drop(s0.bytes, s2.counts);
      var d1 := Drop(s1.bytes, d0.counts);
      && s0.counts[id] == 1 && s1.counts[id] == 2 && s2.counts[id] == 3
      && !d0.freed && d0.counts[id] == 2
      && !d1.freed && d1.counts[id] == 1
      && s2.bytes.AsSlice() == hello[1..9]
  {
  }
}
