/** `SharedBytesBuilder`: a growable buffer that is frozen into shared
    bytes. Its allocation starts with an 8-byte header (a size word at
    offset 0 and a reference-count word at offset 4); the written bytes
    follow from offset 8, and `off` is the offset of the next write. */
module BytesBuilder {
  import opened Bytes
  import opened Wrappers
  import Arith

  const MAX_U32: nat := 0xFFFF_FFFF
  const HEADER: nat := 8
  /** Above this size the buffer grows in steps of 0x8000 bytes instead
      of to the next power of two. */
  const STEP: nat := 0x8000

  /** `len` is the allocation size (0 when nothing is allocated), `off`
      the next write offset, `count` the reference-count word, and
      `body` the allocation's bytes from offset 8 on. */
  datatype Builder = Builder(len: nat, off: nat, count: nat, body: seq<byte>) {
    ghost predicate Valid() {
      HEADER <= off <= MAX_U32 && len <= MAX_U32
      && (len == 0 ==> off == HEADER && body == [] && count == 0)
      && (len > 0 ==> HEADER <= off <= len && |body| == len - HEADER && count == 0)
    }

    /** `len()`: the number of bytes written. */
    function Len(): nat
      requires Valid()
    {
      off - HEADER
    }

    /** `is_empty()`. */
    predicate IsEmpty()
      requires Valid()
    {
      off == HEADER
    }

    /** The bytes written so far: the allocation from offset 8 up to
        `off`. */
    function AsSlice(): (s: seq<byte>)
      requires Valid()
      ensures |s| == Len()
    {
      if off == HEADER then [] else body[..off - HEADER]
    }
  }

  /** `new()`: nothing allocated and nothing written. */
  function New(): (b: Builder)
    ensures b.Valid() && b.len == 0 && b.IsEmpty() && b.AsSlice() == []
  {
    Builder(0, HEADER, 0, [])
  }

  /** `with_capacity(cap)`: panics above 0xFFFF_FFF7; 0 gives `new()`;
      otherwise `cap + 8` bytes are allocated. The fresh bytes are
      uninitialised memory, here zeros. */
  function WithCapacity(cap: nat): (b: Builder)
    requires cap <= 0xFFFF_FFF7
    ensures b.Valid() && b.IsEmpty() && b.AsSlice() == []
    ensures cap == 0 ==> b == New()
    ensures cap > 0 ==> b.len == cap + HEADER
  {
    if cap == 0 then New() else Builder(cap + HEADER, HEADER, 0, Zeros(cap))
  }

  /** `reserve_exact(new_len)`: a no-op unless `new_len` exceeds the
      allocation; otherwise the allocation grows to `new_len` bytes,
      keeping what was written. Every caller asks for at least `off`. */
  function ReserveExact(b: Builder, newLen: nat): (r: Builder)
    requires b.Valid() && newLen <= MAX_U32
    requires newLen <= b.len || newLen >= b.off
    ensures r.Valid() && r.off == b.off && r.AsSlice() == b.AsSlice()
    ensures r.len == if newLen <= b.len then b.len else newLen
    ensures newLen <= b.len ==> r == b
  {
    if newLen <= b.len then b
    else
      var body := if b.len == 0 then Zeros(newLen - HEADER) else b.body + Zeros(newLen - b.len);
      var r := Builder(newLen, b.off, 0, body);
      assert b.off > HEADER ==> body[..b.off - HEADER] == b.body[..b.off - HEADER];
      r
  }

  /** The `(x & 0xFFFF_8000) + 0x8000` step of the growth rule: the
      mask keeps bits 15 to 31, so the result is the multiple of 0x8000
      just above `x` once `x` fits in 32 bits. */
  function StepAbove(x: nat): (r: nat)
    ensures x <= MAX_U32 ==> x < r <= x + STEP && r % STEP == 0
  {
    var masked := x % 0x1_0000_0000 - x % STEP;
    assert x <= MAX_U32 ==> x % 0x1_0000_0000 == x;
    Arith.MultipleMod(x / STEP + 1, STEP);
    masked + STEP
  }

  /** The allocation size `extend_from_slice` asks for when `new_off`
      bytes no longer fit: the next power of two up to 0x8000, and above
      it the next step of 0x8000, capped at 0xFFFF_FFFF. */
  function ExtendTarget(newOff: nat): (r: nat)
    requires 1 <= newOff <= MAX_U32
    ensures newOff <= r <= MAX_U32
    ensures newOff <= STEP ==> Arith.IsPowerOfTwo(r) && r < 2 * newOff
    ensures newOff > STEP ==> r == MAX_U32 || (r % STEP == 0 && newOff < r <= newOff + STEP)
  {
    if newOff > STEP then Min(StepAbove(newOff), MAX_U32)
    else
      Arith.NextPowerOfTwoBelowDouble(newOff);
      Arith.NextPowerOfTwo(newOff)
  }

  /** The allocation size `reserve` asks for: the same rule, except that
      the step rule already applies at exactly 0x8000. */
  function ReserveTarget(newOff: nat): (r: nat)
    requires newOff >= 1
    ensures r <= MAX_U32
    ensures newOff <= MAX_U32 ==> newOff <= r
    ensures newOff < STEP ==> Arith.IsPowerOfTwo(r) && r < 2 * newOff
    ensures STEP <= newOff <= MAX_U32 ==> r == MAX_U32 || (r % STEP == 0 && newOff < r <= newOff + STEP)
  {
    if newOff >= STEP then Min(StepAbove(newOff), MAX_U32)
    else
      Arith.NextPowerOfTwoBelowDouble(newOff);
      Arith.NextPowerOfTwo(newOff)
  }

  function Min(a: nat, b: nat): nat {
    if a <= b then a else b
  }

  /** The two growth rules disagree exactly at 0x8000 bytes: extending
      to that size allocates 0x8000 bytes, reserving it allocates twice
      as much. */
  lemma ThresholdsDiffer()
    ensures ExtendTarget(STEP) == STEP
    ensures ReserveTarget(STEP) == 2 * STEP
  {
    assert Arith.Pow2(15) == STEP;
    Arith.NextPowerOfTwoOfPowerOfTwo(15);
  }

  /** `reserve(additional)`: a no-op when `off` is already 0xFFFF_FFFF;
      otherwise `reserve_exact` of the growth rule applied to
      `off + additional`. When the sum fits in 32 bits, that many bytes
      fit afterwards. */
  function Reserve(b: Builder, additional: nat): (r: Builder)
    requires b.Valid()
    ensures r.Valid() && r.off == b.off && r.AsSlice() == b.AsSlice()
    ensures r.len >= b.len
    ensures b.off < MAX_U32 && b.off + additional <= MAX_U32 ==> r.len >= b.off + additional
  {
    if b.off == MAX_U32 then b
    else
      var target := ReserveTarget(b.off + additional);
      ReserveExact(b, target)
  }

  /** `reserve_extra()`: grows so at least one more byte fits, using
      `off + 7` below 0x8000; a no-op at 0xFFFF_FFFF. */
  function ReserveExtra(b: Builder): (r: Builder)
    requires b.Valid()
    ensures r.Valid() && r.off == b.off && r.AsSlice() == b.AsSlice()
    ensures r.len >= b.len
    ensures b.off < MAX_U32 ==> r.len > b.off
  {
    if b.off == MAX_U32 then b
    else
      var raw := if b.off >= STEP then StepAbove(b.off) else Arith.NextPowerOfTwo(b.off + 7);
      ReserveExact(b, Min(raw, MAX_U32))
  }

  /** `extend_from_slice(dat)`: a no-op for empty input; panics when
      `dat` exceeds 0xFFFF_FFF7 bytes or `off + |dat|` exceeds
      0xFFFF_FFFF; otherwise grows the allocation when needed and
      appends `dat`. */
  function ExtendFromSlice(b: Builder, d: seq<byte>): (r: Builder)
    requires b.Valid()
    requires |d| == 0 || (|d| <= 0xFFFF_FFF7 && b.off + |d| <= MAX_U32)
    ensures r.Valid() && r.AsSlice() == b.AsSlice() + d
    ensures r.Len() == b.Len() + |d|
    ensures r.len >= b.len
  {
    if |d| == 0 then
      assert b.AsSlice() + d == b.AsSlice();
      b
    else
      var newOff := b.off + |d|;
      var grown := if newOff > b.len then ReserveExact(b, ExtendTarget(newOff)) else b;
      var body := grown.body[..b.off - HEADER] + d + grown.body[newOff - HEADER..];
      var r := Builder(grown.len, newOff, 0, body);
      assert r.AsSlice() == body[..newOff - HEADER];
      assert body[..newOff - HEADER] == grown.body[..b.off - HEADER] + d;
      assert grown.body[..b.off - HEADER] == b.AsSlice();
      r
  }

  /** `extend_from_slice` on each part in turn, as the `Extend` impls do. */
  function ExtendAll(b: Builder, parts: seq<seq<byte>>): (r: Builder)
    requires b.Valid() && b.off + TotalLen(parts) <= MAX_U32
    ensures r.Valid() && r.AsSlice() == b.AsSlice() + Flatten(parts)
    decreases |parts|
  {
    if |parts| == 0 then
      assert b.AsSlice() + Flatten(parts) == b.AsSlice();
      b
    else
      var next := ExtendFromSlice(b, parts[0]);
      assert next.off == b.off + |parts[0]|;
      var r := ExtendAll(next, parts[1..]);
      AppendFlatten(b.AsSlice(), parts);
      r
  }

  lemma AppendFlatten(a: seq<byte>, parts: seq<seq<byte>>)
    requires |parts| > 0
    ensures a + parts[0] + Flatten(parts[1..]) == a + Flatten(parts)
  {
  }

  /** The result of `build`: the allocation, with its size word and
      reference count, and the view `(off, len)` onto it. */
  datatype FrozenAlloc = FrozenAlloc(sizeWord: nat, count: nat, body: seq<byte>)
  datatype Frozen = Frozen(alloc: Option<FrozenAlloc>, off: nat, len: nat) {
    ghost predicate Valid() {
      (alloc.None? ==> off == 0 && len == 0)
      && (alloc.Some? ==> HEADER <= off && off - HEADER + len <= |alloc.value.body|)
    }

    function AsSlice(): (s: seq<byte>)
      requires Valid()
      ensures |s| == len
    {
      if alloc.None? then [] else alloc.value.body[off - HEADER..off - HEADER + len]
    }
  }

  /** `build()`: a never-allocated builder gives the empty handle;
      otherwise the header gets the allocation size and a count of 1,
      and the handle views the written bytes from offset 8. */
  function Build(b: Builder): (r: Frozen)
    requires b.Valid()
    ensures r.Valid() && r.AsSlice() == b.AsSlice()
    ensures r.alloc.None? <==> b.len == 0
    ensures r.alloc.Some? ==> r.off == HEADER && r.alloc.value.count == 1 && r.alloc.value.sizeWord == b.len
  {
    if b.len == 0 then Frozen(None, 0, 0)
    else Frozen(Some(FrozenAlloc(b.len, 1, b.body)), HEADER, b.off - HEADER)
  }

  /** Everything appended to a new builder is what the frozen handle
      holds. */
  lemma BuildAfterExtends(parts: seq<seq<byte>>)
    requires HEADER + TotalLen(parts) <= MAX_U32
    ensures Build(ExtendAll(New(), parts)).AsSlice() == Flatten(parts)
  {
    assert New().AsSlice() + Flatten(parts) == Flatten(parts);
  }

  /** `Drop`: the allocation is freed when there is one and its count
      word is 0, which for a builder is whenever it allocated. */
  function Drop(b: Builder): (freed: bool)
    requires b.Valid()
    ensures freed <==> b.len != 0
  {
    b.len != 0 && b.count == 0
  }

  /** `as_slice` as written: it reads `off - 8` bytes starting at offset
      `off` instead of offset 8. `None` when that range runs past the
      allocation. */
  function AsSliceAsWritten(b: Builder): (r: Option<seq<byte>>)
    requires b.Valid()
    ensures r.Some? ==> |r.value| == b.Len()
  {
    if b.off == HEADER then Some([])
    else if 2 * b.off - HEADER <= b.len then Some(b.body[b.off - HEADER..2 * b.off - 2 * HEADER])
    else None
  }

  /** `with_capacity(2)` then `extend_from_slice(b"ab")`: the written
      `as_slice` would read bytes 10 and 11 of a 10-byte allocation,
      while the written bytes are `ab`. */
  lemma AsSliceReadsPastAllocation()
    ensures var b := ExtendFromSlice(WithCapacity(2), [0x61, 0x62]);
      b.AsSlice() == [0x61, 0x62] && AsSliceAsWritten(b).None?
  {
    var b := ExtendFromSlice(WithCapacity(2), [0x61, 0x62]);
    assert b.off == 10 && b.len == 10;
  }
}
