/** `ByteChunk`: up to twelve bytes stored inline, with an explicit
    length byte. */
module ByteChunk {
  import opened Bytes

  /** The capacity of a chunk (`ByteChunk::LEN`). */
  const LEN: nat := 12

  /** A range bound as given by `RangeBounds`. */
  datatype Bound = Included(n: nat) | Excluded(n: nat) | Unbounded

  /** The first index a start bound selects. */
  function StartIndex(b: Bound): nat {
    match b
    case Included(s) => s
    case Excluded(s) => s + 1
    case Unbounded => 0
  }

  /** The index one past the last one an end bound selects, for data of
      length `len`. */
  function EndIndex(b: Bound, len: nat): nat {
    match b
    case Included(e) => e + 1
    case Excluded(e) => e
    case Unbounded => len
  }

  /** The chunk: a `u8` length and a twelve-byte array. Bytes past
      `len` are left over from earlier contents and never read. */
  datatype Chunk = Chunk(len: nat, data: seq<byte>) {
    ghost predicate Valid() {
      len <= LEN && |data| == LEN
    }

    /** `len` and `is_empty`. */
    function Len(): nat {
      len
    }

    predicate IsEmpty() {
      len == 0
    }

    /** `as_slice`: the first `len` bytes of the array. */
    function AsSlice(): (s: seq<byte>)
      requires Valid()
      ensures |s| == Len()
      ensures IsEmpty() <==> s == []
    {
      data[..len]
    }
  }

  /** `from_slice` (and `from_array`, which is the same for an array of
      length `L`): asserts the length fits, zeroes the array and copies
      the bytes to its front. */
  function FromSlice(d: seq<byte>): (c: Chunk)
    requires |d| <= LEN
    ensures c.Valid()
    ensures c.Len() == |d| && c.AsSlice() == d
  {
    var c := Chunk(|d|, d + Zeros(LEN - |d|));
    assert c.data[..|d|] == d;
    c
  }

  /** `from_byte`: a one-byte chunk. */
  function FromByte(b: byte): (c: Chunk)
    ensures c.Valid()
    ensures c.Len() == 1 && !c.IsEmpty() && c.AsSlice() == [b]
  {
    Chunk(1, [b] + Zeros(LEN - 1))
  }

  /** The empty chunk. */
  function Empty(): (c: Chunk)
    ensures c.Valid() && c.IsEmpty() && c.AsSlice() == []
  {
    FromSlice([])
  }

  /** The private in-place `slice`: panics unless `start <= end <= len`,
      then stores the new length and, when the cut does not start at 0,
      moves the kept bytes to the front one by one. Each move reads an
      index ahead of every index already written, so slot `k < end -
      start` ends up holding the old byte `start + k` and the slots past
      the new length keep their old bytes. */
  function Slice(c: Chunk, start: nat, end: nat): (r: Chunk)
    requires c.Valid()
    requires start <= end <= c.Len()
    ensures r.Valid()
    ensures r.Len() == end - start
    ensures r.AsSlice() == c.AsSlice()[start..end]
    ensures r.data[end - start..] == c.data[end - start..]
  {
    var n := end - start;
    if n == 0 || start == 0 then Chunk(n, c.data)
    else Chunk(n, seq(LEN, k requires 0 <= k < LEN => if k < n then c.data[start + k] else c.data[k]))
  }

  /** `sliced`, `into_sliced` and `make_sliced`: normalise the bounds and
      slice a copy. In this value model the receiver is never changed,
      so the three differ only in how the result is handed back. */
  function Sliced(c: Chunk, lo: Bound, hi: Bound): (r: Chunk)
    requires c.Valid()
    requires StartIndex(lo) <= EndIndex(hi, c.Len()) <= c.Len()
    ensures r.Valid()
    ensures r.AsSlice() == c.AsSlice()[StartIndex(lo)..EndIndex(hi, c.Len())]
  {
    Slice(c, StartIndex(lo), EndIndex(hi, c.Len()))
  }
}
