/** `ByteData`: a byte string that is an inline chunk, a borrowed or
    static slice, a `SharedBytes` view or an `ExtBytes` view. The Rust
    type is a union told apart by its first byte; here it is a datatype,
    and the tag byte is modelled by `Tag` and decoded by `KindOf`. */
module ByteData {
  import opened Wrappers
  import opened Bytes
  import opened RefCount
  import ByteChunk
  import Shared
  import External
  import ConstBytes
  import Utf8

  /* ---- The tag byte ---- */

  /** `Kind`. */
  datatype Kind = ChunkKind | SliceKind | SharedKind | ExternalKind

  /** `KIND_CHUNK_MASK`, the tag every chunk is written with. */
  const KIND_CHUNK: byte := 0x07

  /** `u8::trailing_zeros` (8 for zero). */
  function TrailingZeros(b: byte): nat
    decreases b
  {
    if b == 0 then 8 else if b & 1 != 0 then 0 else 1 + TrailingZeros(b >> 1)
  }

  /** At least two trailing zeros means the two low bits are clear. */
  lemma TrailingZerosAtLeastTwo(b: byte)
    ensures TrailingZeros(b) >= 2 <==> b & 3 == 0
  {
    if b != 0 && b & 1 == 0 {
      assert b >> 1 != 0;
      assert (b >> 1) & 1 == 0 <==> b & 3 == 0;
      if (b >> 1) & 1 == 0 {
        assert TrailingZeros(b >> 1) == 1 + TrailingZeros(b >> 1 >> 1);
      }
    }
  }

  /** The tags `kind` accepts; any other first byte panics. */
  predicate ValidTag(t: byte) {
    var base := t & 0x0F;
    base == 0x07 || base == 0x0F || base == External.KIND_EXT_BYTES || TrailingZeros(base) >= 2
  }

  /** `DataKind::kind`: the low nibble decides, checked in the source's
      order. */
  function KindOf(t: byte): Kind
    requires ValidTag(t)
  {
    var base := t & 0x0F;
    if base == 0x07 then ChunkKind
    else if base == 0x0F then SliceKind
    else if base == External.KIND_EXT_BYTES then ExternalKind
    else SharedKind
  }

  /** The tags that decode to `Shared` are exactly those with the two
      low bits clear, i.e. the low byte of any 4-aligned address. */
  lemma KindOfShared(t: byte)
    ensures ValidTag(t) && KindOf(t) == SharedKind <==> t & 3 == 0
  {
    TrailingZerosAtLeastTwo(t & 0x0F);
    assert (t & 0x0F) & 3 == t & 3;
  }

  /** The byte the tag is read from for a `SharedBytes`: the low byte of
      its little-endian address, 0 when it has none. */
  function AddressByte(h: Shared.SharedBytes): byte {
    match h.dat
    case None => 0
    case Some(a) => ByteOfInt(a.id % 256)
  }

  lemma AlignedAddressByte(x: nat)
    requires x % 4 == 0
    ensures ByteOfInt(x % 256) & 3 == 0
  {
    LowByteOfMultiple(x);
    LowBitsOfMultiple(ByteOfInt(x % 256));
  }

  lemma LowByteOfMultiple(x: nat)
    requires x % 4 == 0
    ensures (x % 256) % 4 == 0
  {
    assert x == 4 * (x / 4);
    assert x == 256 * (x / 256) + x % 256;
    var m := x / 4 - 64 * (x / 256);
    assert x % 256 == 4 * m;
  }

  lemma LowBitsOfMultiple(b: byte)
    requires (b as int) % 4 == 0
    ensures b & 3 == 0
  {
  }

  /* ---- `ByteSlice`: length and static flag packed into one word ---- */

  /** `ByteSlice::new`: the length shifted up by eight bits, under a mask
      whose low nibble is the slice tag and whose bit 7 is the static
      flag. */
  function PackSlice(len: bv64, isStatic: bool): bv64 {
    (len << 8) | (if isStatic then 0x8F else 0x0F)
  }

  /** `ByteSlice::len`: the word shifted down by eight bits. */
  function PackedLen(w: bv64): bv64 {
    w >> 8
  }

  /** The first byte of the word in memory (it is stored little-endian). */
  function PackedTag(w: bv64): byte {
    (w & 0xFF) as bv8
  }

  /** `ByteSlice::is_static`: bit 7 of the first byte. */
  predicate PackedStatic(w: bv64) {
    PackedTag(w) & 0x80 != 0
  }

  /** Packing loses nothing for lengths below 2^56, and the first byte
      always decodes as a slice. */
  lemma PackSliceRoundTrip(len: bv64, isStatic: bool)
    requires len < 0x100_0000_0000_0000
    ensures PackedLen(PackSlice(len, isStatic)) == len
    ensures PackedStatic(PackSlice(len, isStatic)) == isStatic
    ensures ValidTag(PackedTag(PackSlice(len, isStatic)))
    ensures KindOf(PackedTag(PackSlice(len, isStatic))) == SliceKind
  {
    assert PackedTag(PackSlice(len, isStatic)) == if isStatic then 0x8F else 0x0F;
  }

  /* ---- The value ---- */

  /** The four representations. `SliceData` holds the viewed bytes and
      the static flag of its `ByteSlice`. */
  datatype ByteData =
    | ChunkData(chunk: ByteChunk.Chunk)
    | SliceData(bytes: seq<byte>, isStatic: bool)
    | SharedData(shared: Shared.SharedBytes)
    | ExternalData(ext: External.ExtBytes)
  {
    ghost predicate Valid() {
      match this
      case ChunkData(c) => c.Valid()
      case SliceData(b, _) => |b| < 0x100_0000_0000_0000
      case SharedData(h) => h.Valid()
      case ExternalData(e) => e.Valid()
    }

    function Kind(): Kind {
      match this
      case ChunkData(_) => ChunkKind
      case SliceData(_, _) => SliceKind
      case SharedData(_) => SharedKind
      case ExternalData(_) => ExternalKind
    }

    /** The first byte of the union as each constructor leaves it. */
    function Tag(): byte
      requires Valid()
    {
      match this
      case ChunkData(_) => KIND_CHUNK
      case SliceData(b, s) => PackedTag(PackSlice(|b| as bv64, s))
      case SharedData(h) => AddressByte(h)
      case ExternalData(_) => External.KIND_EXT_BYTES
    }

    /** `as_slice`. */
    function AsSlice(): (s: seq<byte>)
      requires Valid()
      ensures |s| == Len()
    {
      match this
      case ChunkData(c) => c.AsSlice()
      case SliceData(b, _) => b
      case SharedData(h) => h.AsSlice()
      case ExternalData(e) => e.AsSlice()
    }

    /** `len`. */
    function Len(): nat {
      match this
      case ChunkData(c) => c.Len()
      case SliceData(b, _) => |b|
      case SharedData(h) => h.Len()
      case ExternalData(e) => e.Len()
    }

    /** `is_empty` as written: an `External` value is never reported
        empty. */
    predicate IsEmptyAsWritten() {
      match this
      case ChunkData(c) => c.IsEmpty()
      case SliceData(b, _) => |b| == 0
      case SharedData(h) => h.IsEmpty()
      case ExternalData(_) => false
    }

    /** `is_empty` as intended, and as the rest of this model uses it. */
    predicate IsEmpty() {
      Len() == 0
    }

    /** The value does not borrow: it is not a non-static slice. */
    predicate Owning() {
      !(SliceData? && !isStatic)
    }
  }

  /** Every value's first byte decodes to its own representation. */
  lemma TagDecodes(d: ByteData)
    requires d.Valid()
    requires d.SharedData? && d.shared.dat.Some? ==> d.shared.dat.value.id % Shared.META_ALIGN == 0
    ensures ValidTag(d.Tag()) && KindOf(d.Tag()) == d.Kind()
  {
    match d
    case ChunkData(_) =>
    case SliceData(b, s) => PackSliceRoundTrip(|b| as bv64, s);
    case SharedData(h) =>
      if h.dat.Some? {
        AlignedAddressByte(h.dat.value.id);
      }
      KindOfShared(AddressByte(h));
    case ExternalData(_) =>
  }

  /** The corrected `is_empty` agrees with the written one except on
      `External` values. */
  lemma IsEmptyAsWrittenAgrees(d: ByteData)
    requires !d.ExternalData?
    ensures d.IsEmptyAsWritten() <==> d.IsEmpty()
  {
  }

  /** A value and the counts after the operation that produced it. */
  datatype Counted = Counted(data: ByteData, counts: Counts)

  /** The value holds one reference to its allocation, if it has one. */
  predicate Owned(d: ByteData, rc: Counts) {
    match d
    case SharedData(h) => Shared.Owned(h, rc)
    case ExternalData(e) => External.Owned(e, rc)
    case _ => true
  }

  /** Normal form of a new value: a short one is a chunk. */
  predicate Normal(d: ByteData) {
    d.Len() <= ByteChunk.LEN ==> d.ChunkData?
  }

  /* ---- Constructors ---- */

  /** `empty`: a zeroed chunk of length 0. */
  function Empty(): (d: ByteData)
    ensures d.Valid() && d.ChunkData? && d.AsSlice() == []
  {
    ChunkData(ByteChunk.Empty())
  }

  /** `from_chunk_slice` (and `from_chunk` for arrays): panics above
      `LEN` bytes. */
  function FromChunkSlice(b: seq<byte>): (d: ByteData)
    requires |b| <= ByteChunk.LEN
    ensures d.Valid() && d.ChunkData? && d.AsSlice() == b
  {
    if |b| == 0 then Empty() else ChunkData(ByteChunk.FromSlice(b))
  }

  /** `from_byte`. */
  function FromByte(b: byte): (d: ByteData)
    ensures d.Valid() && d.ChunkData? && d.AsSlice() == [b]
  {
    ChunkData(ByteChunk.FromByte(b))
  }

  /** `from_static`: short data is copied into a chunk, longer data is
      a static slice. */
  function FromStatic(b: seq<byte>): (d: ByteData)
    requires |b| < 0x100_0000_0000_0000
    ensures d.Valid() && Normal(d) && d.AsSlice() == b
    ensures d.Owning()
    ensures |b| > ByteChunk.LEN ==> d == SliceData(b, true)
  {
    if |b| <= ByteChunk.LEN then ChunkData(ByteChunk.FromSlice(b)) else SliceData(b, true)
  }

  /** `from_borrowed`: as `from_static`, but a long slice is marked as
      borrowed. */
  function FromBorrowed(b: seq<byte>): (d: ByteData)
    requires |b| < 0x100_0000_0000_0000
    ensures d.Valid() && Normal(d) && d.AsSlice() == b
    ensures |b| > ByteChunk.LEN ==> d == SliceData(b, false)
  {
    if |b| == 0 then Empty()
    else if |b| <= ByteChunk.LEN then ChunkData(ByteChunk.FromSlice(b))
    else SliceData(b, false)
  }

  /** `from_shared`: wraps the handle as it is, however short. */
  function FromShared(h: Shared.SharedBytes): (d: ByteData)
    requires h.Valid()
    ensures d.Valid() && d.AsSlice() == h.AsSlice() && d.SharedData?
  {
    SharedData(h)
  }

  /** `from_external`: `ExtBytes::create`. */
  function FromExternal(payload: seq<byte>, t: External.Layout, w: External.Layout, kind: nat, id: nat, rc: Counts): (r: Counted)
    requires t.Valid() && w.Valid()
    requires |payload| > ByteChunk.LEN ==> id !in rc
    ensures r.data.Valid() && Normal(r.data) && r.data.AsSlice() == payload
    ensures Owned(r.data, r.counts)
    ensures r.data.ChunkData? ==> r.counts == rc
    ensures r.data.ExternalData? ==> r.counts == rc[id := 1]
  {
    match External.Create(payload, t, w, kind, id, rc)
    case Inline(c, counts) => Counted(ChunkData(c), counts)
    case Handle(e, counts) => Counted(ExternalData(e), counts)
  }

  /** `from_owned` for a `Vec<u8>`: empty and short vectors become
      chunks, longer ones are moved into an `ExtBytes`. */
  function FromOwned(b: seq<byte>, vec: External.Layout, w: External.Layout, kind: nat, id: nat, rc: Counts): (r: Counted)
    requires vec.Valid() && w.Valid()
    requires |b| > ByteChunk.LEN ==> id !in rc
    ensures r.data.Valid() && Normal(r.data) && r.data.AsSlice() == b
    ensures Owned(r.data, r.counts)
    ensures |b| <= ByteChunk.LEN ==> r.counts == rc
  {
    if |b| == 0 then Counted(Empty(), rc)
    else if |b| <= ByteChunk.LEN then Counted(ChunkData(ByteChunk.FromSlice(b)), rc)
    else FromExternal(b, vec, w, kind, id, rc)
  }

  /* ---- Slicing ---- */

  /** `sliced(start..end)`: panics unless `start <= end <= len()`. The
      receiver is unchanged. A chunk result is built from the bytes; a
      slice keeps its static flag when long; a `SharedBytes` is sliced
      and demoted to a chunk when short; an `ExtBytes` is sliced by its
      own rule. The effect on the counts is `SlicedCounts`. */
  function Sliced(d: ByteData, start: nat, end: nat): (r: ByteData)
    requires d.Valid()
    requires start <= end <= d.Len()
    ensures r.Valid() && r.AsSlice() == d.AsSlice()[start..end]
    ensures end - start <= ByteChunk.LEN ==> r.ChunkData?
    ensures d.SliceData? && end - start > ByteChunk.LEN ==> r == SliceData(d.bytes[start..end], d.isStatic)
    ensures d.ChunkData? ==> r.ChunkData?
  {
    match d
    case ChunkData(c) => FromChunkSlice(c.AsSlice()[start..end])
    case SliceData(b, s) =>
      var bb := b[start..end];
      if |bb| <= ByteChunk.LEN then FromChunkSlice(bb) else SliceData(bb, s)
    case SharedData(h) =>
      var v := Shared.SlicedView(h, start, end - start);
      if v.Len() <= ByteChunk.LEN then FromChunkSlice(v.AsSlice()) else SharedData(v)
    case ExternalData(e) =>
      if end - start <= ByteChunk.LEN then FromChunkSlice(e.AsSlice()[start..end])
      else ExternalData(External.MakeSlicedRange(e, start, end))
  }

  /** The counts after `sliced`: a handle result holds one more
      reference; a chunk result holds none, because a `SharedBytes`
      slice taken on the way is dropped again. */
  function SlicedCounts(d: ByteData, start: nat, end: nat, rc: Counts): (r: Counts)
    requires d.Valid() && Owned(d, rc)
    requires start <= end <= d.Len()
    ensures Sliced(d, start, end).ChunkData? ==> r == rc
    ensures Sliced(d, start, end).SharedData? ==> r == Acquire(rc, d.shared.dat.value.id)
    ensures Sliced(d, start, end).ExternalData? ==> r == Acquire(rc, d.ext.wrapper.id)
    ensures Owned(Sliced(d, start, end), r)
  {
    match d
    case SharedData(h) =>
      var c := Shared.SlicedRange(h, start, end, rc);
      if c.bytes.Len() > ByteChunk.LEN then c.counts
      else if end - start == 0 then Shared.Drop(c.bytes, c.counts).counts
      else
        AcquireRelease(rc, h.dat.value.id);
        Shared.Drop(c.bytes, c.counts).counts
    case ExternalData(e) => External.SlicedRange(e, start, end, rc).counts
    case _ => rc
  }

  /** `Sliced` builds the same value as the handles' own slicing
      functions. */
  lemma SlicedMatchesHandles(d: ByteData, start: nat, end: nat, rc: Counts)
    requires d.Valid() && Owned(d, rc)
    requires start <= end <= d.Len()
    ensures d.SharedData? && end - start > ByteChunk.LEN ==> Sliced(d, start, end) == SharedData(Shared.SlicedRange(d.shared, start, end, rc).bytes)
    ensures d.ExternalData? ==> (match External.SlicedRange(d.ext, start, end, rc)
      case Inline(c, _) => Sliced(d, start, end) == ChunkData(c) || (c.Len() == 0 && Sliced(d, start, end) == Empty())
      case Handle(e, _) => Sliced(d, start, end) == ExternalData(e))
  {
    if d.ExternalData? && end - start <= ByteChunk.LEN && end - start > 0 {
      assert Sliced(d, start, end) == ChunkData(ByteChunk.FromSlice(d.ext.AsSlice()[start..end]));
    }
  }

  /** `make_sliced(start..end)` and `into_sliced`: narrow the value in
      place. A chunk moves its bytes; a slice stays a slice, however
      short; a `SharedBytes` or `ExtBytes` view is narrowed and, if it
      is then at most `LEN` bytes, copied into a chunk and dropped. */
  function MakeSliced(d: ByteData, start: nat, end: nat): (r: ByteData)
    requires d.Valid()
    requires start <= end <= d.Len()
    ensures r.Valid() && r.AsSlice() == d.AsSlice()[start..end]
    ensures r.Kind() == d.Kind() || (r.ChunkData? && end - start <= ByteChunk.LEN)
    ensures (d.SharedData? || d.ExternalData?) && end - start <= ByteChunk.LEN ==> r.ChunkData?
    ensures d.SliceData? ==> r == SliceData(d.bytes[start..end], d.isStatic)
  {
    match d
    case ChunkData(c) => ChunkData(ByteChunk.Slice(c, start, end))
    case SliceData(b, s) => SliceData(b[start..end], s)
    case SharedData(h) =>
      var v := Shared.MakeSlicedRange(h, start, end);
      if v.Len() > ByteChunk.LEN then SharedData(v)
      else ChunkData(ByteChunk.FromSlice(v.AsSlice()))
    case ExternalData(e) =>
      var v := External.MakeSlicedRange(e, start, end);
      if v.Len() > ByteChunk.LEN then ExternalData(v)
      else ChunkData(ByteChunk.FromSlice(v.AsSlice()))
  }

  /** The counts after `make_sliced`: a view demoted to a chunk releases
      its reference; otherwise nothing changes. */
  function MakeSlicedCounts(d: ByteData, start: nat, end: nat, rc: Counts): (r: Released)
    requires d.Valid() && Owned(d, rc)
    requires start <= end <= d.Len()
    ensures d.SharedData? && MakeSliced(d, start, end).ChunkData? ==> r == Shared.Drop(d.shared, rc)
    ensures d.ExternalData? && MakeSliced(d, start, end).ChunkData? ==> r == External.Drop(d.ext, rc)
    ensures d.Kind() == MakeSliced(d, start, end).Kind() ==> r == Released(rc, false)
    ensures !r.freed ==> Owned(MakeSliced(d, start, end), r.counts)
  {
    match d
    case SharedData(h) =>
      var v := Shared.MakeSlicedRange(h, start, end);
      if v.Len() > ByteChunk.LEN then Released(rc, false) else Shared.Drop(v, rc)
    case ExternalData(e) =>
      var v := External.MakeSlicedRange(e, start, end);
      if v.Len() > ByteChunk.LEN then Released(rc, false) else External.Drop(v, rc)
    case _ => Released(rc, false)
  }

  /* ---- Detaching from borrowed memory ---- */

  /** What `into_shared` needs of a fresh allocation for a borrowed
      slice of more than `LEN` bytes: an unused, aligned address and a
      length `SharedBytes::from_slice` accepts. */
  predicate CopyOk(b: seq<byte>, id: nat, rc: Counts) {
    !Shared.FromSliceTooLarge(b, Shared.META_ALIGN)
    && (|b| > 0 ==> id !in rc && id % Shared.META_ALIGN == 0)
  }

  /** `into_shared`: owned values and static slices are kept; a borrowed
      slice is copied into a chunk when short and into a new
      `SharedBytes` otherwise. */
  function IntoShared(d: ByteData, id: nat, rc: Counts): (r: Counted)
    requires d.Valid() && Owned(d, rc)
    requires d.SliceData? && !d.isStatic && d.Len() > ByteChunk.LEN ==> CopyOk(d.bytes, id, rc)
    ensures r.data.Valid() && Owned(r.data, r.counts)
    ensures r.data.AsSlice() == d.AsSlice()
    ensures r.data.Owning()
    ensures d.Owning() ==> r == Counted(d, rc)
  {
    match d
    case SliceData(b, s) =>
      if s then Counted(d, rc)
      else if |b| <= ByteChunk.LEN then Counted(ChunkData(ByteChunk.FromSlice(b)), rc)
      else
        var c := Shared.FromSlice(b, id, rc);
        Counted(SharedData(c.bytes), c.counts)
    case _ => Counted(d, rc)
  }

  /** `into_shared_range`: `into_shared` restricted to `start..end`.
      Owned views are narrowed in place (without the demotion
      `make_sliced` applies); a slice is copied when short or borrowed. */
  function IntoSharedRange(d: ByteData, start: nat, end: nat, id: nat, rc: Counts): (r: Counted)
    requires d.Valid() && Owned(d, rc)
    requires start <= end <= d.Len()
    requires d.SliceData? && !d.isStatic && end - start > ByteChunk.LEN ==> CopyOk(d.bytes[start..end], id, rc)
    ensures r.data.Valid() && Owned(r.data, r.counts)
    ensures r.data.AsSlice() == d.AsSlice()[start..end]
    ensures r.data.Owning()
    ensures !d.SliceData? ==> r.counts == rc && r.data.Kind() == d.Kind()
  {
    match d
    case ChunkData(c) => Counted(ChunkData(ByteChunk.Slice(c, start, end)), rc)
    case SharedData(h) => Counted(SharedData(Shared.MakeSlicedRange(h, start, end)), rc)
    case ExternalData(e) => Counted(ExternalData(External.MakeSlicedRange(e, start, end)), rc)
    case SliceData(b, s) =>
      var sub := b[start..end];
      if |sub| <= ByteChunk.LEN then Counted(ChunkData(ByteChunk.FromSlice(sub)), rc)
      else if s then Counted(SliceData(sub, true), rc)
      else
        var c := Shared.FromSlice(sub, id, rc);
        Counted(SharedData(c.bytes), c.counts)
  }

  /** `into_shared_range(r)` holds the same bytes as
      `into_shared().into_sliced(r)`. */
  lemma IntoSharedRangeLikeIntoSharedThenSliced(d: ByteData, start: nat, end: nat, id: nat, rc: Counts)
    requires d.Valid() && Owned(d, rc)
    requires start <= end <= d.Len()
    requires d.SliceData? && !d.isStatic && d.Len() > ByteChunk.LEN ==> CopyOk(d.bytes, id, rc)
    requires d.SliceData? && !d.isStatic && end - start > ByteChunk.LEN ==> CopyOk(d.bytes[start..end], id, rc)
    ensures IntoSharedRange(d, start, end, id, rc).data.AsSlice()
         == MakeSliced(IntoShared(d, id, rc).data, start, end).AsSlice()
  {
  }

  /** A zero-length `ExtBytes` view, reachable through
      `into_shared_range`, has length 0 but is not reported empty by
      the written `is_empty`. */
  lemma ExternalEmptyRange()
    ensures var w := External.Wrapper(8, 1, 8, 64, 40, Zeros(20));
      var d := ExternalData(External.ExtBytes(w, 0, 20));
      var r := IntoSharedRange(d, 0, 0, 0, map[8 := 1]).data;
      && r.ExternalData? && r.Len() == 0 && r.IsEmpty() && !r.IsEmptyAsWritten()
  {
  }

  /* ---- Splitting ---- */

  /** `take_bytes(p)` (and `split_at`, which returns the pair): panics
      when `p` is past the end (through `sliced`). The first part is the
      first `p` bytes and the value keeps the rest. */
  function TakeBytes(d: ByteData, p: nat): (r: (ByteData, ByteData))
    requires d.Valid()
    requires p <= d.Len()
    ensures r.0.Valid() && r.1.Valid()
    ensures r.0.AsSlice() == d.AsSlice()[..p]
    ensures r.0.AsSlice() + r.1.AsSlice() == d.AsSlice()
    ensures p == 0 ==> r.1 == d
    ensures 0 < p == d.Len() ==> r.0 == d && r.1 == Empty()
  {
    if p == 0 then (Empty(), d)
    else if p == d.Len() then (d, Empty())
    else
      var rest := MakeSliced(d, p, d.Len());
      assert d.AsSlice()[..p] + rest.AsSlice() == d.AsSlice();
      (Sliced(d, 0, p), rest)
  }

  /** The value holds its reference to the allocation named `id`. */
  predicate RefersTo(d: ByteData, id: nat) {
    (d.SharedData? && d.shared.dat.Some? && d.shared.dat.value.id == id)
    || (d.ExternalData? && d.ext.wrapper.id == id)
  }

  /** The number of references to `id` the value holds: 0 or 1. */
  function Refs(d: ByteData, id: nat): nat {
    if RefersTo(d, id) then 1 else 0
  }

  /** The counts after `take_bytes(p)`: `sliced(0..p)` as in
      `SlicedCounts`, then `make_sliced(p..)` of the receiver as in
      `MakeSlicedCounts`. The receiver's one reference becomes one per
      part that is still a handle, so the allocation is freed exactly
      when neither part refers to it any more and it had one owner. */
  function TakeBytesCounts(d: ByteData, p: nat, rc: Counts): (r: Released)
    requires d.Valid() && Owned(d, rc)
    requires p <= d.Len()
    ensures forall id :: id in rc && !RefersTo(d, id) ==> id in r.counts && r.counts[id] == rc[id]
    ensures forall id :: RefersTo(d, id) ==>
      var n := rc[id] - 1 + Refs(TakeBytes(d, p).0, id) + Refs(TakeBytes(d, p).1, id);
      if n == 0 then r.freed && id !in r.counts else !r.freed && id in r.counts && r.counts[id] == n
    ensures !r.freed ==> Owned(TakeBytes(d, p).0, r.counts) && Owned(TakeBytes(d, p).1, r.counts)
  {
    if p == 0 || p == d.Len() then Released(rc, false)
    else
      var c := SlicedCounts(d, 0, p, rc);
      MakeSlicedCounts(d, p, d.Len(), c)
  }

  /** The length of the longest prefix of `s` whose bytes all satisfy
      `f`. */
  function PrefixWhile(s: seq<byte>, f: byte -> bool): (n: nat)
    ensures n <= |s|
    ensures forall k :: 0 <= k < n ==> f(s[k])
    ensures n < |s| ==> !f(s[n])
  {
    if |s| == 0 || !f(s[0]) then 0
    else
      var n := 1 + PrefixWhile(s[1..], f);
      assert forall k :: 1 <= k < n ==> s[k] == s[1..][k - 1];
      n
  }

  /** `take_while`: takes the longest prefix of bytes satisfying `f`. */
  function TakeWhile(d: ByteData, f: byte -> bool): (r: (ByteData, ByteData))
    requires d.Valid()
    ensures r.0.Valid() && r.1.Valid()
    ensures r.0.AsSlice() + r.1.AsSlice() == d.AsSlice()
    ensures forall k :: 0 <= k < r.0.Len() ==> f(r.0.AsSlice()[k])
    ensures r.1.Len() > 0 ==> !f(r.1.AsSlice()[0])
  {
    var n := PrefixWhile(d.AsSlice(), f);
    var r := TakeBytes(d, n);
    assert r.1.AsSlice() == d.AsSlice()[n..];
    r
  }

  /** `split_once_on`: `Err(self)` when the needle does not occur,
      otherwise a split at its first occurrence, so that the second part
      starts with the needle. */
  method SplitOnceOn(d: ByteData, needle: seq<byte>) returns (r: Result<(ByteData, ByteData), ByteData>)
    requires d.Valid()
    ensures r.Failure? <==> forall p: nat :: !ConstBytes.MatchAt(d.AsSlice(), needle, p)
    ensures r.Failure? ==> r.error == d
    ensures r.Success? ==> (r.value.0.Valid() && r.value.1.Valid()
      && r.value.0.AsSlice() + r.value.1.AsSlice() == d.AsSlice()
      && ConstBytes.MatchAt(d.AsSlice(), needle, r.value.0.Len())
      && forall p: nat :: p < r.value.0.Len() ==> !ConstBytes.MatchAt(d.AsSlice(), needle, p))
  {
    var found := ConstBytes.ConstSplitOnceBytes(d.AsSlice(), needle);
    match found {
      case None => r := Failure(d);
      case Some(parts) =>
        r := Success(TakeBytes(d, |parts.0|));
        assert d.AsSlice()[..|parts.0|] == parts.0;
    }
  }

  /* ---- Comparison ---- */

  /** `Ord::cmp`: the order of the bytes. `Eq` and `Hash` likewise look
      at `as_slice` only. */
  function Cmp(a: ByteData, b: ByteData): Ordering
    requires a.Valid() && b.Valid()
  {
    LexCmp(a.AsSlice(), b.AsSlice())
  }

  /** Values compare equal exactly when they hold the same bytes, in
      whatever representation. */
  lemma CmpEqualIff(a: ByteData, b: ByteData)
    requires a.Valid() && b.Valid()
    ensures Cmp(a, b) == Equal <==> a.AsSlice() == b.AsSlice()
  {
    LexCmpEqualIff(a.AsSlice(), b.AsSlice());
  }

  /** `into_shared` does not change how a value compares. */
  lemma IntoSharedPreservesOrder(a: ByteData, b: ByteData, id: nat, rc: Counts)
    requires a.Valid() && Owned(a, rc) && b.Valid()
    requires a.SliceData? && !a.isStatic && a.Len() > ByteChunk.LEN ==> CopyOk(a.bytes, id, rc)
    ensures Cmp(IntoShared(a, id, rc).data, b) == Cmp(a, b)
  {
  }
}
