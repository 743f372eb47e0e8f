/** `ByteIter` and `OwnedByteIter`: iterators over the bytes of a queue,
    one byte at a time. */
module ByteIter {
  import opened Wrappers
  import opened Bytes
  import opened Seqs
  import BQ = ByteQueue
  import LI = LinkedIter
  import B = ByteData

  /* ---- ByteIter: borrowing, over a chunk iterator ---- */

  /** The bytes of the current chunk, none before the first. */
  function ChunkBytes(c: Option<B.ByteData>): seq<byte>
    requires c.Some? ==> c.value.Valid()
  {
    if c.Some? then c.value.AsSlice() else []
  }

  /** `chunk` is the chunk the walk is in, `inner` yields the chunks after
      it; `offset` and `len` count from the start of `chunk`, and the
      bytes still to come are those between them. */
  datatype ByteIter = ByteIter(inner: LI.Iter, chunk: Option<B.ByteData>, offset: nat, len: nat) {
    ghost predicate Valid() {
      && inner.Valid()
      && BQ.AllValid(inner.Remaining())
      && (chunk.Some? ==> chunk.value.Valid())
      && offset <= len <= |Stream()|
    }

    /** The current chunk's bytes followed by those of the later chunks. */
    function Stream(): seq<byte>
      requires inner.Valid() && BQ.AllValid(inner.Remaining())
      requires chunk.Some? ==> chunk.value.Valid()
    {
      ChunkBytes(chunk) + BQ.Concat(inner.Remaining())
    }

    /** The bytes still to be yielded. */
    function Remaining(): seq<byte>
      requires Valid()
    {
      Stream()[offset..len]
    }
  }

  /** `ByteQueue::bytes`: no chunk yet, `len` the queue's length. */
  function New(q: BQ.ByteQueue): (it: ByteIter)
    requires q.Valid()
    ensures it.Valid() && it.Remaining() == q.Bytes()
  {
    var it := ByteIter(BQ.ChunksIter(q), None, 0, BQ.Len(q));
    EmptyConcat(q.Bytes());
    it
  }

  /** `len`, `count` and both bounds of `size_hint`: `len - offset`. */
  function Len(it: ByteIter): (n: nat)
    requires it.Valid()
    ensures n == |it.Remaining()|
  {
    it.len - it.offset
  }

  /** `skip`/`skip_mut`: `offset` moves on by `n`; reaching `len` empties
      the iterator. */
  function Skip(it: ByteIter, n: nat): (r: ByteIter)
    requires it.Valid()
    ensures r.Valid() && r.Remaining() == it.Remaining()[LI.Min(n, Len(it))..]
  {
    if it.offset + n >= it.len then ByteIter(it.inner, None, 0, 0)
    else
      WindowOfDrop(it.Stream()[..it.len], it.offset, it.offset + n, it.len);
      ByteIter(it.inner, it.chunk, it.offset + n, it.len)
  }

  /** `take`: `len` is cut to `offset + n` when more than `n` are left. */
  function Take(it: ByteIter, n: nat): (r: ByteIter)
    requires it.Valid()
    ensures r.Valid()
    ensures r.Remaining() == if Len(it) > n then it.Remaining()[..n] else it.Remaining()
  {
    if Len(it) > n then
      PrefixOfWindow(it.Stream(), it.offset, it.len, n);
      ByteIter(it.inner, it.chunk, it.offset, it.offset + n)
    else it
  }

  /** `next`: `None` once `offset` reaches `len`; otherwise chunks are
      pulled from `inner` until the one holding `offset`, with `offset`
      and `len` reduced by each chunk passed, and the byte at `offset`
      is returned. */
  function Next(it: ByteIter): (r: Option<(byte, ByteIter)>)
    requires it.Valid()
    ensures r.None? <==> it.Remaining() == []
    ensures r.Some? ==> (r.value.1.Valid()
      && it.Remaining() == [r.value.0] + r.value.1.Remaining())
  {
    if it.offset >= it.len then None else Pull(it)
  }

  function Pull(it: ByteIter): (r: Option<(byte, ByteIter)>)
    requires it.Valid() && it.offset < it.len
    ensures r.Some? && r.value.1.Valid()
    ensures it.Remaining() == [r.value.0] + r.value.1.Remaining()
    decreases |it.inner.Remaining()|, 1
  {
    if |ChunkBytes(it.chunk)| > it.offset then Here(it) else PullNext(it)
  }

  /** The byte at `offset` of the current chunk. */
  function Here(it: ByteIter): (r: Option<(byte, ByteIter)>)
    requires it.Valid() && it.offset < it.len && it.offset < |ChunkBytes(it.chunk)|
    ensures r.Some? && r.value.1.Valid()
    ensures it.Remaining() == [r.value.0] + r.value.1.Remaining()
  {
    var c := it.chunk.value.AsSlice();
    ByteAt(it.Stream(), c, it.offset, it.len);
    Some((c[it.offset], ByteIter(it.inner, it.chunk, it.offset + 1, it.len)))
  }

  /** Past the current chunk: move to the next one from `inner`. */
  function PullNext(it: ByteIter): (r: Option<(byte, ByteIter)>)
    requires it.Valid() && it.offset < it.len && |ChunkBytes(it.chunk)| <= it.offset
    ensures r.Some? && r.value.1.Valid()
    ensures it.Remaining() == [r.value.0] + r.value.1.Remaining()
    decreases |it.inner.Remaining()|, 0
  {
    Pull(NextChunk(it))
  }

  /** The chunk after the current one becomes current; `offset` and
      `len` drop by the current chunk's length. */
  function NextChunk(it: ByteIter): (it': ByteIter)
    requires it.Valid() && it.offset < it.len && |ChunkBytes(it.chunk)| <= it.offset
    ensures Advanced(it, it')
  {
    var oldLen := |ChunkBytes(it.chunk)|;
    InnerNonEmpty(it);
    var next := LI.Next(it.inner).value;
    PullChunk(it, next.0, next.1);
    ByteIter(next.1, Some(next.0), it.offset - oldLen, it.len - oldLen)
  }

  /** `it'` has the same bytes still to come as `it`, at least one of
      them, with fewer chunks left in `inner`. */
  ghost predicate Advanced(it: ByteIter, it': ByteIter) {
    && it.Valid() && it'.Valid()
    && it'.offset < it'.len && it'.Remaining() == it.Remaining()
    && |it'.inner.Remaining()| < |it.inner.Remaining()|
  }

  /** The byte at `offset` of the current chunk starts what is left. */
  lemma ByteAt(stream: seq<byte>, c: seq<byte>, offset: nat, len: nat)
    requires offset < |c| <= |stream| && offset < len <= |stream| && stream[..|c|] == c
    ensures stream[offset..len] == [c[offset]] + stream[offset + 1..len]
  {
    assert stream[offset] == c[offset];
  }

  /** Past the current chunk but short of `len`, more chunks remain. */
  lemma InnerNonEmpty(it: ByteIter)
    requires it.Valid() && it.offset < it.len && |ChunkBytes(it.chunk)| <= it.offset
    ensures it.inner.Remaining() != []
  {
    BQ.ConcatNil();
  }

  /** Moving to the next chunk drops the current one from the stream,
      and `offset` and `len` drop with it. */
  lemma PullChunk(it: ByteIter, x: B.ByteData, inner': LI.Iter)
    requires it.Valid() && |ChunkBytes(it.chunk)| <= it.offset
    requires inner'.Valid() && it.inner.Remaining() == [x] + inner'.Remaining()
    requires it.offset < it.len
    ensures var oldLen := |ChunkBytes(it.chunk)|;
      Advanced(it, ByteIter(inner', Some(x), it.offset - oldLen, it.len - oldLen))
  {
    var oldLen := |ChunkBytes(it.chunk)|;
    var rest := BQ.Concat(it.inner.Remaining());
    PulledStream(it, x, inner');
    var it' := ByteIter(inner', Some(x), it.offset - oldLen, it.len - oldLen);
    assert it'.Stream() == rest;
    assert it.Stream() == ChunkBytes(it.chunk) + rest;
    WindowInSecond(ChunkBytes(it.chunk), rest, it.offset, it.len);
  }

  /** The next chunk and the chunks after it make up the stream without
      the current chunk. */
  lemma PulledStream(it: ByteIter, x: B.ByteData, inner': LI.Iter)
    requires it.Valid()
    requires inner'.Valid() && it.inner.Remaining() == [x] + inner'.Remaining()
    ensures x.Valid() && BQ.AllValid(inner'.Remaining())
    ensures BQ.Concat(it.inner.Remaining()) == x.AsSlice() + BQ.Concat(inner'.Remaining())
  {
    var cs := it.inner.Remaining();
    assert cs[0] == x && cs[1..] == inner'.Remaining();
    BQ.ConcatCons(cs);
  }

  /** `nth`: `skip_mut(n)`, then `next`. */
  function Nth(it: ByteIter, n: nat): (r: Option<(byte, ByteIter)>)
    requires it.Valid()
    ensures r.None? <==> n >= |it.Remaining()|
    ensures r.Some? ==> (r.value.0 == it.Remaining()[n]
      && r.value.1.Valid() && r.value.1.Remaining() == it.Remaining()[n + 1..])
  {
    var rem := it.Remaining();
    var it' := Skip(it, n);
    var r := Next(it');
    if r.None? then None
    else
      SuffixCons(rem, LI.Min(n, |rem|), r.value.0, r.value.1.Remaining());
      r
  }

  /** `last`: `None` when nothing is left, else skip all but one and
      take the next. */
  function Last(it: ByteIter): (r: Option<byte>)
    requires it.Valid()
    ensures r.None? <==> it.Remaining() == []
    ensures r.Some? ==> r.value == it.Remaining()[|it.Remaining()| - 1]
  {
    var len := Len(it);
    if len == 0 then None
    else
      match Nth(it, len - 1)
      case Some((b, _)) => Some(b)
      case None => None
  }

  /** Walking a byte iterator of a queue to the end yields the queue's
      bytes, in order. */
  function Collect(it: ByteIter): (r: seq<byte>)
    requires it.Valid()
    ensures r == it.Remaining()
    decreases Len(it)
  {
    match Next(it)
    case None => []
    case Some((b, it')) => [b] + Collect(it')
  }

  /* ---- OwnedByteIter: consuming, over the queue itself ---- */

  /** The iterator owns the queue and takes bytes off its front. */
  datatype OwnedByteIter = OwnedByteIter(inner: BQ.ByteQueue) {
    ghost predicate Valid() {
      inner.Valid()
    }

    function Remaining(): seq<byte>
      requires Valid()
    {
      inner.Bytes()
    }
  }

  /** `len`, `count` and `size_hint`: the queue's length. */
  function OwnedLen(it: OwnedByteIter): (n: nat)
    requires it.Valid()
    ensures n == |it.Remaining()|
  {
    BQ.Len(it.inner)
  }

  /** `next`: pop the first chunk, return its first byte and push the
      rest of it back unless nothing is left of it. */
  function OwnedNext(it: OwnedByteIter): (r: Option<(byte, OwnedByteIter)>)
    requires it.Valid()
    ensures r.None? <==> it.Remaining() == []
    ensures r.Some? ==> (r.value.1.Valid()
      && it.Remaining() == [r.value.0] + r.value.1.Remaining())
  {
    match BQ.PopFront(it.inner)
    case None => None
    case Some((av, q1)) => Some(FirstByte(av, q1))
  }

  function FirstByte(av: B.ByteData, q1: BQ.ByteQueue): (r: (byte, OwnedByteIter))
    requires av.Valid() && av.Len() > 0 && q1.Valid()
    ensures r.1.Valid() && av.AsSlice() + q1.Bytes() == [r.0] + r.1.Remaining()
  {
    var a := av.AsSlice();
    var q' := RestBack(av, q1);
    SplitFirst(a, q1.Bytes());
    (a[0], OwnedByteIter(q'))
  }

  /** What is left of the popped chunk goes back in front. */
  function RestBack(av: B.ByteData, q1: BQ.ByteQueue): (r: BQ.ByteQueue)
    requires av.Valid() && av.Len() > 0 && q1.Valid()
    ensures r.Valid() && r.Bytes() == av.AsSlice()[1..] + q1.Bytes()
  {
    DropConcat(av.AsSlice(), q1.Bytes(), 1);
    if av.Len() > 1 then BQ.PushFrontTail(av, q1, 1)
    else
      assert av.AsSlice()[1..] == [];
      q1
  }

  lemma SplitFirst(a: seq<byte>, b: seq<byte>)
    requires |a| > 0
    ensures a + b == [a[0]] + (a[1..] + b)
  {
    assert a == [a[0]] + a[1..];
    ConcatAssoc([a[0]], a[1..], b);
  }

  /** `skip_mut`: pop chunks; a chunk shorter than what is left to skip
      is dropped and the count reduced; one exactly as long is dropped
      and the skip ends; a longer one has its tail pushed back. Skips
      `min(n, len)` bytes. */
  function OwnedSkip(it: OwnedByteIter, n: nat): (r: OwnedByteIter)
    requires it.Valid()
    ensures r.Valid() && r.Remaining() == it.Remaining()[LI.Min(n, OwnedLen(it))..]
  {
    OwnedByteIter(SkipQueue(it.inner, n))
  }

  function SkipQueue(q: BQ.ByteQueue, n: nat): (r: BQ.ByteQueue)
    requires q.Valid()
    ensures r.Valid() && r.Bytes() == q.Bytes()[LI.Min(n, BQ.Len(q))..]
    decreases BQ.Len(q), 2
  {
    match BQ.PopFront(q)
    case None => q
    case Some((av, q1)) => SkipFrom(av, q1, n)
  }

  /** One round of the `skip_mut` loop, on the chunk `av` just popped. */
  function SkipFrom(av: B.ByteData, q1: BQ.ByteQueue, n: nat): (r: BQ.ByteQueue)
    requires av.Valid() && av.Len() > 0 && q1.Valid()
    ensures r.Valid()
    ensures var all := av.AsSlice() + q1.Bytes(); r.Bytes() == all[LI.Min(n, |all|)..]
    decreases BQ.Len(q1) + av.Len(), 1
  {
    if av.Len() < n then SkipPast(av, q1, n)
    else if av.Len() == n then
      DropFirstWhole(av.AsSlice(), q1.Bytes());
      q1
    else BQ.PushFrontTail(av, q1, n)
  }

  /** A chunk shorter than the count is dropped and the count reduced. */
  function SkipPast(av: B.ByteData, q1: BQ.ByteQueue, n: nat): (r: BQ.ByteQueue)
    requires av.Valid() && 0 < av.Len() < n && q1.Valid()
    ensures r.Valid()
    ensures var all := av.AsSlice() + q1.Bytes(); r.Bytes() == all[LI.Min(n, |all|)..]
    decreases BQ.Len(q1) + av.Len(), 0
  {
    SkipWhole(av.AsSlice(), q1.Bytes(), n);
    SkipQueue(q1, n - av.Len())
  }

  lemma SkipWhole(a: seq<byte>, b: seq<byte>, n: nat)
    requires |a| < n
    ensures (a + b)[LI.Min(n, |a + b|)..] == b[LI.Min(n - |a|, |b|)..]
  {
    DropDrop(a + b, |a|, LI.Min(n, |a + b|) - |a|);
    assert (a + b)[|a|..] == b;
  }

  lemma DropFirstWhole(a: seq<byte>, b: seq<byte>)
    ensures (a + b)[LI.Min(|a|, |a + b|)..] == b
  {
    assert (a + b)[|a|..] == b;
  }

  /** `nth`: `skip_mut(n)`, then `next`. */
  function OwnedNth(it: OwnedByteIter, n: nat): (r: Option<(byte, OwnedByteIter)>)
    requires it.Valid()
    ensures r.None? <==> n >= |it.Remaining()|
    ensures r.Some? ==> (r.value.0 == it.Remaining()[n]
      && r.value.1.Valid() && r.value.1.Remaining() == it.Remaining()[n + 1..])
  {
    var rem := it.Remaining();
    var it' := OwnedSkip(it, n);
    var r := OwnedNext(it');
    if r.None? then None
    else
      SuffixCons(rem, LI.Min(n, |rem|), r.value.0, r.value.1.Remaining());
      r
  }

  /** `last`: the last byte of the last chunk. */
  function OwnedLast(it: OwnedByteIter): (r: Option<byte>)
    requires it.Valid()
    ensures r.None? <==> it.Remaining() == []
    ensures r.Some? ==> r.value == it.Remaining()[|it.Remaining()| - 1]
  {
    match BQ.PopBack(it.inner)
    case None => None
    case Some((av, q1)) =>
      var a := av.AsSlice();
      assert (q1.Bytes() + a)[|q1.Bytes() + a| - 1] == a[|a| - 1];
      Some(a[|a| - 1])
  }

  /** `take` as meant: pop chunks off the back while what stays is at
      least `n` bytes; then push back the first `n - len` bytes of the
      chunk that straddles `n`. At most `n` bytes remain, the first
      ones. */
  function OwnedTake(it: OwnedByteIter, n: nat): (r: OwnedByteIter)
    requires it.Valid()
    ensures r.Valid()
    ensures r.Remaining() == if OwnedLen(it) > n then it.Remaining()[..n] else it.Remaining()
  {
    OwnedByteIter(TakeQueue(it.inner, n))
  }

  function TakeQueue(q: BQ.ByteQueue, n: nat): (r: BQ.ByteQueue)
    requires q.Valid()
    ensures r.Valid()
    ensures r.Bytes() == if BQ.Len(q) > n then q.Bytes()[..n] else q.Bytes()
    decreases BQ.Len(q), 1
  {
    if BQ.Len(q) <= n then q
    else
      var (av, q1) := BQ.PopBack(q).value;
      TakeFrom(av, q1, n)
  }

  /** One round of the `take` loop, on the chunk `av` just popped. */
  function TakeFrom(av: B.ByteData, q1: BQ.ByteQueue, n: nat): (r: BQ.ByteQueue)
    requires av.Valid() && av.Len() > 0 && q1.Valid() && BQ.Len(q1) + av.Len() > n
    ensures r.Valid() && r.Bytes() == (q1.Bytes() + av.AsSlice())[..n]
    decreases BQ.Len(q1) + av.Len(), 0
  {
    if BQ.Len(q1) >= n then
      KeepFirst(q1.Bytes(), av.AsSlice(), n);
      TakeQueue(q1, n)
    else
      var p := B.MakeSliced(av, 0, n - BQ.Len(q1));
      KeepAcross(q1.Bytes(), av.AsSlice(), n, p.AsSlice());
      BQ.PushBack(q1, p)
  }

  lemma KeepFirst(a: seq<byte>, b: seq<byte>, n: nat)
    requires n <= |a|
    ensures (a + b)[..n] == (if |a| > n then a[..n] else a)
  {
    assert (a + b)[..n] == a[..n];
  }

  lemma KeepAcross(a: seq<byte>, b: seq<byte>, n: nat, p: seq<byte>)
    requires |a| < n <= |a| + |b| && p == b[0..n - |a|]
    ensures a + p == (a + b)[..n]
  {
  }

  /** `take` as written: the straddling chunk is cut to its first
      `len - n` bytes, `len` being the chunk's own length, instead of
      `n` minus what stays. `None` is the panic when that subtraction
      underflows. */
  function OwnedTakeAsWritten(it: OwnedByteIter, n: nat): (r: Option<OwnedByteIter>)
    requires it.Valid()
    ensures r.Some? ==> r.value.Valid()
    ensures OwnedLen(it) <= n ==> r == Some(it)
  {
    match TakeQueueAsWritten(it.inner, n)
    case None => None
    case Some(q) => Some(OwnedByteIter(q))
  }

  function TakeQueueAsWritten(q: BQ.ByteQueue, n: nat): (r: Option<BQ.ByteQueue>)
    requires q.Valid()
    ensures r.Some? ==> r.value.Valid()
    ensures BQ.Len(q) <= n ==> r == Some(q)
    decreases BQ.Len(q)
  {
    if BQ.Len(q) <= n then Some(q)
    else
      var (av, q1) := BQ.PopBack(q).value;
      if BQ.Len(q1) >= n then TakeQueueAsWritten(q1, n)
      else if av.Len() < n then None
      else Some(BQ.PushBack(q1, B.MakeSliced(av, 0, av.Len() - n)))
  }

  /** One 6-byte chunk, `take(4)`: as written 2 bytes stay, where 4 are
      meant. */
  lemma OwnedTakeAsWrittenKeepsTooFew(d: B.ByteData)
    requires d.Valid() && d.Len() == 6
    ensures var it := OwnedByteIter(BQ.WithItem(d));
      && OwnedTakeAsWritten(it, 4).Some?
      && OwnedLen(OwnedTakeAsWritten(it, 4).value) == 2
      && OwnedLen(OwnedTake(it, 4)) == 4
  {
    var q := BQ.WithItem(d);
    var (av, q1) := BQ.PopBack(q).value;
    assert q.Chunks() == [d];
    assert q1.Chunks() + [av] == [d];
    assert |q1.Chunks()| == 0;
    assert av == [d][0];
    BQ.ConcatNil();
  }

  /** Chunks of 4 and 2 bytes, `take(5)`: as written `2 - 5` underflows
      and the call panics, where `abcde` is meant. */
  lemma OwnedTakeAsWrittenUnderflows(d1: B.ByteData, d2: B.ByteData)
    requires d1.Valid() && d1.Len() == 4 && d2.Valid() && d2.Len() == 2
    ensures var it := OwnedByteIter(BQ.PushBack(BQ.WithItem(d1), d2));
      && OwnedTakeAsWritten(it, 5).None?
      && OwnedTake(it, 5).Remaining() == d1.AsSlice() + d2.AsSlice()[..1]
  {
    UnderflowOnTwoChunks(d1, d2);
    MeantTakeOnTwoChunks(d1, d2);
  }

  lemma UnderflowOnTwoChunks(d1: B.ByteData, d2: B.ByteData)
    requires d1.Valid() && d1.Len() == 4 && d2.Valid() && d2.Len() == 2
    ensures TakeQueueAsWritten(BQ.PushBack(BQ.WithItem(d1), d2), 5).None?
  {
    var q := TwoChunks(d1, d2);
  }

  lemma MeantTakeOnTwoChunks(d1: B.ByteData, d2: B.ByteData)
    requires d1.Valid() && d1.Len() == 4 && d2.Valid() && d2.Len() == 2
    ensures TakeQueue(BQ.PushBack(BQ.WithItem(d1), d2), 5).Bytes() == d1.AsSlice() + d2.AsSlice()[..1]
  {
    var q := TwoChunks(d1, d2);
    PrefixAcross(d1.AsSlice(), d2.AsSlice(), 5);
  }

  /** The queue of two chunks pops the second one off its back. */
  lemma TwoChunks(d1: B.ByteData, d2: B.ByteData) returns (q: BQ.ByteQueue)
    requires d1.Valid() && d1.Len() == 4 && d2.Valid() && d2.Len() == 2
    ensures q == BQ.PushBack(BQ.WithItem(d1), d2)
    ensures q.Valid() && BQ.Len(q) == 6 && q.Bytes() == d1.AsSlice() + d2.AsSlice()
    ensures BQ.PopBack(q).Some? && BQ.PopBack(q).value.0 == d2
    ensures BQ.Len(BQ.PopBack(q).value.1) == 4
  {
    q := BQ.PushBack(BQ.WithItem(d1), d2);
    assert q.Chunks() == [d1, d2];
    var (av, q1) := BQ.PopBack(q).value;
    assert q1.Chunks() + [av] == [d1, d2];
    assert av == d2 && q1.Chunks() == [d1];
    BQ.ConcatSingle(d1);
  }
}
