/** `ExtBytes`: bytes owned by a value of some other type `T`, moved
    into a reference-counted allocation behind an `ExtBytesWrapper`
    header. The handle is a boxed `(wrapper, ptr, len)` view onto the
    bytes `T` exposes. */
module External {
  import opened Wrappers
  import opened Bytes
  import opened Arith
  import opened RefCount
  import ByteChunk

  /** The tag byte `KIND_EXT_BYTES` that starts every handle. */
  const KIND_EXT_BYTES: byte := 0x03

  /** Size and alignment of a type, as the compiler lays it out: the
      alignment is a power of two and the size a multiple of it. */
  datatype Layout = Layout(size: nat, align: nat) {
    predicate Valid() {
      IsPowerOfTwo(align) && size % align == 0
    }
  }

  /** The allocation: its address, the `TypeId` of `T` (as a number),
      the `align` and `alloc` fields of the header, the size of the
      header type, and the bytes `T::OPS.as_slice` exposes. */
  datatype Wrapper = Wrapper(id: nat, kind: nat, align: nat, alloc: nat, headerSize: nat, payload: seq<byte>)

  /** Where the `T` value sits in the allocation: the header size
      rounded up to the recorded alignment. `create`, `with_inner` and
      `drop` all compute it this way. */
  function PayloadOffset(w: Wrapper): (off: nat)
    requires w.align >= 1
    ensures off >= w.headerSize && off % w.align == 0
  {
    RoundUp(w.headerSize, w.align)
  }

  /** The handle: a view of `len` bytes starting `start` bytes into the
      payload's slice. */
  datatype ExtBytes = ExtBytes(wrapper: Wrapper, start: nat, len: nat) {
    ghost predicate Valid() {
      wrapper.align >= 1 && start + len <= |wrapper.payload|
    }

    function Len(): nat {
      len
    }

    function AsSlice(): (s: seq<byte>)
      requires Valid()
      ensures |s| == Len()
    {
      wrapper.payload[start..start + len]
    }
  }

  /** A handle that owns one reference to its allocation. */
  predicate Owned(e: ExtBytes, rc: Counts) {
    Live(rc, e.wrapper.id)
  }

  /** What `create` and `sliced_range` hand back: a short result is
      copied into a chunk and no reference is kept; a long one is a
      handle. Both carry the counts afterwards. */
  datatype Created = Inline(chunk: ByteChunk.Chunk, counts: Counts) | Handle(ext: ExtBytes, counts: Counts)

  /** The payload, placed at the rounded-up header size, fits in the
      allocation, which is the sum of both sizes rounded up to the
      larger alignment. */
  lemma PayloadFits(t: Layout, w: Layout)
    requires t.Valid() && w.Valid()
    ensures var align := if t.align < w.align then w.align else t.align;
      RoundUp(w.size, align) + t.size <= RoundUp(t.size + w.size, align)
  {
    var align := if t.align < w.align then w.align else t.align;
    if align == w.align {
      assert RoundUp(w.size, align) == w.size;
    } else {
      RoundUpShift(w.size, t.size, align);
      assert w.size + t.size == t.size + w.size;
    }
  }

  /** Adding a multiple of the alignment commutes with rounding up. */
  lemma RoundUpShift(x: nat, y: nat, a: nat)
    requires a >= 1 && y % a == 0
    ensures RoundUp(x, a) + y == RoundUp(x + y, a)
  {
    ModAddMultiple(x, y, a);
  }

  /** Adding a multiple of `a` leaves the remainder modulo `a` alone. */
  lemma ModAddMultiple(x: nat, y: nat, a: nat)
    requires a >= 1 && y % a == 0
    ensures (x + y) % a == x % a
  {
    var k := y / a;
    assert y == k * a;
    var q, r := x / a, x % a;
    assert x == q * a + r;
    assert x + y == (q + k) * a + r by {
      assert (q + k) * a == q * a + k * a;
    }
    ModOfSum(q + k, a, r);
  }

  lemma ModOfSum(q: nat, a: nat, m: nat)
    requires a >= 1 && m < a
    ensures (q * a + m) % a == m
  {
    var y := q * a + m;
    var t, r := y / a, y % a;
    assert (q - t) * a == r - m;
    assert (t - q) * a == m - r;
    if q - t >= 1 {
      MulAtLeast(q - t, a);
    } else if q - t <= -1 {
      MulAtLeast(t - q, a);
    }
  }

  /** `create`: a payload slice of at most `LEN` bytes becomes a chunk
      (the value is not kept); otherwise the value moves into a fresh
      allocation at address `id`, behind a header with a count of one,
      and the handle views the whole slice. `T::OPS.as_slice` is taken
      to give the same bytes before and after the move, so the second
      length test in the source always agrees with the first. */
  function Create(payload: seq<byte>, t: Layout, w: Layout, kind: nat, id: nat, rc: Counts): (r: Created)
    requires t.Valid() && w.Valid()
    requires |payload| > ByteChunk.LEN ==> id !in rc
    ensures |payload| <= ByteChunk.LEN <==> r.Inline?
    ensures r.Inline? ==> (r.chunk.Valid() && r.chunk.AsSlice() == payload && r.counts == rc)
    ensures r.Handle? ==> (r.ext.Valid() && r.ext.AsSlice() == payload
      && r.ext.wrapper.id == id && r.ext.wrapper.kind == kind
      && r.counts == rc[id := 1])
    ensures r.Handle? ==> PayloadOffset(r.ext.wrapper) + t.size <= r.ext.wrapper.alloc
  {
    if |payload| <= ByteChunk.LEN then Inline(ByteChunk.FromSlice(payload), rc)
    else
      var align := if t.align < w.align then w.align else t.align;
      var alloc := RoundUp(t.size + w.size, align);
      PayloadFits(t, w);
      var wrapper := Wrapper(id, kind, align, alloc, w.size, payload);
      Handle(ExtBytes(wrapper, 0, |payload|), rc[id := 1])
  }

  /** `make_sliced_range` over the normalised range `start..end`: panics
      when either end is past the length or `end < start`; otherwise
      only this handle's view moves, with no count change and no
      conversion to a chunk, however short. */
  function MakeSlicedRange(e: ExtBytes, start: nat, end: nat): (r: ExtBytes)
    requires e.Valid()
    requires start <= e.Len() && end <= e.Len() && start <= end
    ensures r.Valid() && r.wrapper == e.wrapper
    ensures r.AsSlice() == e.AsSlice()[start..end]
  {
    ExtBytes(e.wrapper, e.start + start, end - start)
  }

  /** `sliced_range`: the same checks; a result of at most `LEN` bytes
      is copied into a chunk, a longer one is a clone (one more
      reference) narrowed to the range. */
  function SlicedRange(e: ExtBytes, start: nat, end: nat, rc: Counts): (r: Created)
    requires e.Valid() && Owned(e, rc)
    requires start <= e.Len() && end <= e.Len() && start <= end
    ensures end - start <= ByteChunk.LEN <==> r.Inline?
    ensures r.Inline? ==> (r.chunk.Valid() && r.chunk.AsSlice() == e.AsSlice()[start..end] && r.counts == rc)
    ensures r.Handle? ==> (r.ext.Valid() && r.ext.AsSlice() == e.AsSlice()[start..end]
      && r.ext.wrapper == e.wrapper && r.counts == Acquire(rc, e.wrapper.id))
  {
    if end - start <= ByteChunk.LEN then Inline(ByteChunk.FromSlice(e.AsSlice()[start..end]), rc)
    else
      var c := Clone(e, rc);
      Handle(MakeSlicedRange(c.ext, start, end), c.counts)
  }

  /** `with_inner::<T>`: `None` unless the stored type is the requested
      one; otherwise the callback sees the value at the payload offset
      and the viewed bytes, both returned here. */
  function WithInner(e: ExtBytes, kind: nat): (r: Option<(nat, seq<byte>)>)
    requires e.Valid()
    ensures r.None? <==> e.wrapper.kind != kind
    ensures r.Some? ==> r.value.0 == PayloadOffset(e.wrapper) && r.value.1 == e.AsSlice()
  {
    if e.wrapper.kind != kind then None
    else Some((PayloadOffset(e.wrapper), e.AsSlice()))
  }

  /** `clone`: a new boxed view with the same range, and one more
      reference. */
  function Clone(e: ExtBytes, rc: Counts): (r: Created)
    requires e.Valid() && Owned(e, rc)
    ensures r.Handle? && r.ext == e && r.counts == Acquire(rc, e.wrapper.id)
  {
    Handle(e, Acquire(rc, e.wrapper.id))
  }

  /** `drop`: one reference is released; the holder of the last one
      drops the value and frees the allocation. The boxed view itself
      is always freed. */
  function Drop(e: ExtBytes, rc: Counts): (r: Released)
    requires Owned(e, rc)
    ensures r.freed <==> rc[e.wrapper.id] == 1
    ensures r.freed ==> e.wrapper.id !in r.counts
    ensures !r.freed ==> Live(r.counts, e.wrapper.id) && r.counts[e.wrapper.id] == rc[e.wrapper.id] - 1
  {
    Release(rc, e.wrapper.id)
  }

  /** Dropping a long slice restores the counts. */
  lemma SlicedThenDrop(e: ExtBytes, start: nat, end: nat, rc: Counts)
    requires e.Valid() && Owned(e, rc)
    requires start <= e.Len() && end <= e.Len() && start <= end
    requires end - start > ByteChunk.LEN
    ensures Drop(SlicedRange(e, start, end, rc).ext, SlicedRange(e, start, end, rc).counts) == Released(rc, false)
  {
    AcquireRelease(rc, e.wrapper.id);
  }
}
