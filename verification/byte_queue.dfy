/** `ByteQueue`: a queue of byte chunks over a `LinkedRoot`, with
    `remain`, the total number of bytes, kept alongside. Its bytes are
    the concatenation of its chunks. */
module ByteQueue {
  import opened Wrappers
  import opened Bytes
  import opened Seqs
  import L = LinkedRoot
  import LI = LinkedIter
  import B = ByteData
  import BB = BytesBuilder
  import CW = ChunkWalk

  /* ---- The bytes of a list of chunks ---- */

  ghost predicate AllValid(cs: seq<B.ByteData>) {
    forall i :: 0 <= i < |cs| ==> cs[i].Valid()
  }

  /** Each chunk's bytes. */
  function Slices(cs: seq<B.ByteData>): (r: seq<seq<byte>>)
    requires AllValid(cs)
    ensures |r| == |cs|
    decreases |cs|
  {
    if |cs| == 0 then [] else [cs[0].AsSlice()] + Slices(cs[1..])
  }

  /** The chunks' bytes, one after the other. */
  function Concat(cs: seq<B.ByteData>): seq<byte>
    requires AllValid(cs)
  {
    Flatten(Slices(cs))
  }

  lemma ConcatNil()
    ensures AllValid([]) && Concat([]) == []
  {
  }

  lemma ConcatCons(cs: seq<B.ByteData>)
    requires AllValid(cs) && |cs| > 0
    ensures AllValid(cs[1..])
    ensures Concat(cs) == cs[0].AsSlice() + Concat(cs[1..])
  {
    assert Slices(cs)[1..] == Slices(cs[1..]);
  }

  lemma {:induction false} SlicesAppend(a: seq<B.ByteData>, b: seq<B.ByteData>)
    requires AllValid(a) && AllValid(b)
    ensures AllValid(a + b)
    ensures Slices(a + b) == Slices(a) + Slices(b)
    decreases |a|
  {
    assert AllValid(a + b) by {
      forall i | 0 <= i < |a + b|
        ensures (a + b)[i].Valid()
      {
        if i >= |a| {
          assert (a + b)[i] == b[i - |a|];
        }
      }
    }
    if |a| == 0 {
      assert a + b == b;
    } else {
      assert (a + b)[1..] == a[1..] + b;
      SlicesAppend(a[1..], b);
    }
  }

  lemma ConcatAppend(a: seq<B.ByteData>, b: seq<B.ByteData>)
    requires AllValid(a) && AllValid(b)
    ensures AllValid(a + b)
    ensures Concat(a + b) == Concat(a) + Concat(b)
  {
    SlicesAppend(a, b);
    FlattenAppend(Slices(a), Slices(b));
  }

  lemma ConcatSingle(d: B.ByteData)
    requires d.Valid()
    ensures AllValid([d]) && Concat([d]) == d.AsSlice()
  {
    assert [d][1..] == [];
    assert Slices([d]) == [d.AsSlice()];
    FlattenSingle(d.AsSlice());
  }

  /** The chunk list as bytes: a chunk's own bytes, or nothing for an
      empty chunk, which is never stored. */
  lemma ConcatChamberPart(d: B.ByteData)
    requires d.Valid()
    ensures AllValid(L.ChamberPart(d)) && Concat(L.ChamberPart(d)) == d.AsSlice()
  {
    if !d.IsEmpty() {
      ConcatSingle(d);
    }
  }

  /** Non-empty chunks hold bytes exactly when there are chunks. */
  lemma ConcatEmptyIff(cs: seq<B.ByteData>)
    requires AllValid(cs) && L.AllNonEmpty(cs)
    ensures Concat(cs) == [] <==> cs == []
  {
    if |cs| > 0 {
      ConcatCons(cs);
    }
  }

  /* ---- The queue ---- */

  datatype ByteQueue = ByteQueue(root: L.Root, remain: nat) {
    /** `remain` is the number of bytes in the chunks. */
    ghost predicate Valid() {
      && root.Valid()
      && AllValid(root.Content())
      && remain == |Concat(root.Content())|
    }

    /** The chunks, front to back. */
    function Chunks(): seq<B.ByteData>
      requires root.Valid()
    {
      root.Content()
    }

    /** The queue's bytes. */
    function Bytes(): seq<byte>
      requires Valid()
    {
      Concat(root.Content())
    }
  }

  /** `new`. */
  function New(): (q: ByteQueue)
    ensures q.Valid() && q.Bytes() == [] && q.Chunks() == []
  {
    ByteQueue(L.New(), 0)
  }

  /** `with_item`: `remain` is the item's length. */
  function WithItem(d: B.ByteData): (q: ByteQueue)
    requires d.Valid()
    ensures q.Valid() && q.Bytes() == d.AsSlice() && q.Chunks() == L.ChamberPart(d)
  {
    ConcatChamberPart(d);
    ByteQueue(L.WithItem(d), d.Len())
  }

  /** `is_full` with `alloc`: a new node is linked whenever one fills. */
  predicate IsFull(q: ByteQueue) {
    false
  }

  /** `push_back`: an empty chunk is ignored; otherwise it is appended
      and `remain` grows by its length. */
  function PushBack(q: ByteQueue, d: B.ByteData): (r: ByteQueue)
    requires q.Valid() && d.Valid()
    ensures r.Valid()
    ensures r.Bytes() == q.Bytes() + d.AsSlice()
    ensures r.Chunks() == q.Chunks() + L.ChamberPart(d)
  {
    if d.IsEmpty() then
      assert d.AsSlice() == [];
      q
    else
      var root := L.PushBack(q.root, d);
      ConcatChamberPart(d);
      ConcatAppend(q.Chunks(), [d]);
      ByteQueue(root, q.remain + d.Len())
  }

  /** `push_front`: as `push_back`, at the front. */
  function PushFront(q: ByteQueue, d: B.ByteData): (r: ByteQueue)
    requires q.Valid() && d.Valid()
    ensures r.Valid()
    ensures r.Bytes() == d.AsSlice() + q.Bytes()
    ensures r.Chunks() == L.ChamberPart(d) + q.Chunks()
  {
    if d.IsEmpty() then
      assert d.AsSlice() == [];
      q
    else
      var root := L.PushFront(q.root, d);
      ConcatChamberPart(d);
      ConcatAppend([d], q.Chunks());
      ByteQueue(root, q.remain + d.Len())
  }

  /** `pop_front`: the first chunk, with `remain` reduced by its
      length; `None` on an empty queue. */
  function PopFront(q: ByteQueue): (r: Option<(B.ByteData, ByteQueue)>)
    requires q.Valid()
    ensures r.None? <==> q.Bytes() == []
    ensures r.Some? ==> (r.value.1.Valid() && r.value.0.Valid() && r.value.0.Len() > 0
      && q.Chunks() == [r.value.0] + r.value.1.Chunks()
      && q.Bytes() == r.value.0.AsSlice() + r.value.1.Bytes())
  {
    L.ContentNonEmpty(q.root);
    ConcatEmptyIff(q.Chunks());
    match L.PopFront(q.root)
    case None => None
    case Some((x, root)) =>
      PopFrontBytes(q, x, root);
      Some((x, ByteQueue(root, q.remain - x.Len())))
  }

  lemma PopFrontBytes(q: ByteQueue, x: B.ByteData, root: L.Root)
    requires q.Valid() && root.Valid() && q.Chunks() == [x] + root.Content()
    ensures x.Valid() && x.Len() > 0 && AllValid(root.Content())
    ensures q.remain >= x.Len()
    ensures ByteQueue(root, q.remain - x.Len()).Valid()
    ensures q.Bytes() == x.AsSlice() + ByteQueue(root, q.remain - x.Len()).Bytes()
  {
    L.ContentNonEmpty(q.root);
    assert q.Chunks()[0] == x;
    assert q.Chunks()[1..] == root.Content();
    ConcatCons(q.Chunks());
  }

  /** `pop_back`: the last chunk, with `remain` reduced by its length. */
  function PopBack(q: ByteQueue): (r: Option<(B.ByteData, ByteQueue)>)
    requires q.Valid()
    ensures r.None? <==> q.Bytes() == []
    ensures r.Some? ==> (r.value.1.Valid() && r.value.0.Valid() && r.value.0.Len() > 0
      && q.Chunks() == r.value.1.Chunks() + [r.value.0]
      && q.Bytes() == r.value.1.Bytes() + r.value.0.AsSlice())
  {
    L.ContentNonEmpty(q.root);
    ConcatEmptyIff(q.Chunks());
    match L.PopBack(q.root)
    case None => None
    case Some((x, root)) =>
      PopBackBytes(q, x, root);
      Some((x, ByteQueue(root, q.remain - x.Len())))
  }

  lemma PopBackBytes(q: ByteQueue, x: B.ByteData, root: L.Root)
    requires q.Valid() && root.Valid() && q.Chunks() == root.Content() + [x]
    ensures x.Valid() && x.Len() > 0 && AllValid(root.Content())
    ensures q.remain >= x.Len()
    ensures ByteQueue(root, q.remain - x.Len()).Valid()
    ensures q.Bytes() == ByteQueue(root, q.remain - x.Len()).Bytes() + x.AsSlice()
  {
    var cs := root.Content();
    L.ContentNonEmpty(q.root);
    assert q.Chunks()[|cs|] == x;
    assert AllValid(cs) by {
      forall i | 0 <= i < |cs|
        ensures cs[i].Valid()
      {
        assert q.Chunks()[i] == cs[i];
      }
    }
    ConcatAppend(cs, [x]);
    ConcatSingle(x);
  }

  /** `front`: the first chunk. */
  function Front(q: ByteQueue): (r: Option<B.ByteData>)
    requires q.Valid()
    ensures r.None? <==> q.Bytes() == []
    ensures r.Some? ==> r.value == q.Chunks()[0]
  {
    L.ContentNonEmpty(q.root);
    ConcatEmptyIff(q.Chunks());
    L.Front(q.root)
  }

  /** `back`: the last chunk. */
  function Back(q: ByteQueue): (r: Option<B.ByteData>)
    requires q.Valid()
    ensures r.None? <==> q.Bytes() == []
    ensures r.Some? ==> r.value == q.Chunks()[|q.Chunks()| - 1]
  {
    L.ContentNonEmpty(q.root);
    ConcatEmptyIff(q.Chunks());
    L.Back(q.root)
  }

  /** `is_empty`: `remain == 0`, which is exactly when there are no bytes
      and no chunks. */
  predicate IsEmpty(q: ByteQueue)
    requires q.Valid()
    ensures IsEmpty(q) <==> q.Bytes() == []
    ensures IsEmpty(q) <==> q.Chunks() == []
  {
    L.ContentNonEmpty(q.root);
    ConcatEmptyIff(q.Chunks());
    q.remain == 0
  }

  /** `len`: the number of bytes. */
  function Len(q: ByteQueue): (n: nat)
    requires q.Valid()
    ensures n == |q.Bytes()|
  {
    q.remain
  }

  /** `chunk_len`: the number of chunks. */
  function ChunkLen(q: ByteQueue): (n: nat)
    requires q.Valid()
    ensures n == |q.Chunks()|
  {
    q.root.Len()
  }

  /** `chunks`: a borrowing iterator over the chunks in order. */
  function ChunksIter(q: ByteQueue): (it: LI.Iter)
    requires q.Valid()
    ensures it.Valid() && it.Remaining() == q.Chunks()
  {
    LI.New(q.root)
  }

  /** `Extend`: `push_back` of each chunk in turn. */
  function Extend(q: ByteQueue, ds: seq<B.ByteData>): (r: ByteQueue)
    requires q.Valid() && AllValid(ds)
    ensures r.Valid() && r.Bytes() == q.Bytes() + Concat(ds)
    decreases |ds|
  {
    if |ds| == 0 then
      assert Concat(ds) == [];
      q
    else
      ConcatCons(ds);
      var r := Extend(PushBack(q, ds[0]), ds[1..]);
      ConcatAssoc(q.Bytes(), ds[0].AsSlice(), Concat(ds[1..]));
      r
  }

  /** `consume(cnt)`: panics past the end; pops whole chunks while they
      fit in what is left to drop, and pushes back the tail of the chunk
      the count ends inside. */
  function Consume(q: ByteQueue, cnt: nat): (r: ByteQueue)
    requires q.Valid() && cnt <= Len(q)
    ensures r.Valid() && r.Bytes() == q.Bytes()[cnt..]
    decreases cnt, 1
  {
    if cnt == 0 then q
    else
      var (f, q1) := PopFront(q).value;
      ConsumeFrom(f, q1, cnt)
  }

  /** One round of the `consume` loop, on the chunk `f` just popped. */
  function ConsumeFrom(f: B.ByteData, q1: ByteQueue, cnt: nat): (r: ByteQueue)
    requires f.Valid() && q1.Valid() && f.Len() > 0 && cnt <= f.Len() + Len(q1)
    ensures r.Valid() && r.Bytes() == (f.AsSlice() + q1.Bytes())[cnt..]
    decreases cnt, 0
  {
    if f.Len() > cnt then PushFrontTail(f, q1, cnt)
    else
      DropWholeChunk(f.AsSlice(), q1.Bytes(), cnt);
      Consume(q1, cnt - f.Len())
  }

  /** The count ends inside `f`: its tail, `make_sliced(cnt..)`, goes
      back in front. */
  function PushFrontTail(f: B.ByteData, q1: ByteQueue, cnt: nat): (r: ByteQueue)
    requires f.Valid() && q1.Valid() && cnt < f.Len()
    ensures r.Valid() && r.Bytes() == (f.AsSlice() + q1.Bytes())[cnt..]
  {
    var p := B.MakeSliced(f, cnt, f.Len());
    DropFirst(f.AsSlice(), q1.Bytes(), cnt, p.AsSlice());
    PushFront(q1, p)
  }

  lemma DropFirst(a: seq<byte>, b: seq<byte>, cnt: nat, p: seq<byte>)
    requires cnt <= |a| && p == a[cnt..|a|]
    ensures p + b == (a + b)[cnt..]
  {
    DropConcat(a, b, cnt);
  }

  lemma DropWholeChunk(a: seq<byte>, b: seq<byte>, cnt: nat)
    requires |a| <= cnt <= |a| + |b|
    ensures (a + b)[cnt..] == b[cnt - |a|..]
  {
    DropDrop(a + b, |a|, cnt - |a|);
    assert (a + b)[|a|..] == b;
  }

  /** Converting to `ByteData`: `From<ByteQueue> for ByteData` gives the
      empty value for an empty queue, the lone chunk itself, or a copy of
      all the bytes frozen from a new builder. */
  datatype Flattened = Chunk(data: B.ByteData) | Copied(frozen: BB.Frozen) {
    ghost predicate Valid() {
      match this
      case Chunk(d) => d.Valid()
      case Copied(f) => f.Valid()
    }

    function AsSlice(): seq<byte>
      requires Valid()
    {
      match this
      case Chunk(d) => d.AsSlice()
      case Copied(f) => f.AsSlice()
    }
  }

  /** The builder is sized for all the bytes up front; `with_capacity`
      panics above 0xFFFF_FFF7 bytes. */
  function IntoByteData(q: ByteQueue): (r: Flattened)
    requires q.Valid() && Len(q) <= 0xFFFF_FFF7
    ensures r.Valid() && r.AsSlice() == q.Bytes()
    ensures ChunkLen(q) <= 1 ==> r.Chunk?
    ensures ChunkLen(q) == 1 ==> r == Chunk(q.Chunks()[0])
  {
    match PopFront(q)
    case None => Chunk(B.Empty())
    case Some((fst, rest)) =>
      if IsEmpty(rest) then Chunk(fst)
      else
        var parts := [fst.AsSlice()] + Slices(rest.Chunks());
        var b := BB.WithCapacity(fst.Len() + Len(rest));
        assert Flatten(parts) == q.Bytes() by {
          assert parts[1..] == Slices(rest.Chunks());
        }
        var built := BB.Build(BB.ExtendAll(b, parts));
        Copied(built)
  }

  /* ---- Slicing ---- */

  /** One end of a `RangeBounds<usize>`. */
  datatype Bound = Included(v: nat) | Excluded(v: nat) | Unbounded

  /** The first index a start bound admits. */
  function StartOf(b: Bound): nat {
    match b
    case Included(v) => v
    case Excluded(v) => v + 1
    case Unbounded => 0
  }

  /** The end bounds `slice` accepts without panicking. */
  predicate EndOk(b: Bound, remain: nat) {
    match b
    case Included(v) => v < remain
    case Excluded(v) => v <= remain
    case Unbounded => true
  }

  /** The index just past the last one an end bound admits. */
  function EndOf(b: Bound, remain: nat): nat
    requires EndOk(b, remain)
  {
    match b
    case Included(v) => v + 1
    case Excluded(v) => v
    case Unbounded => remain
  }

  /** The ranges `slice` accepts: an excluded end of 0 returns at once;
      otherwise the end must be within the queue and the start at most
      the end. */
  predicate SliceOk(remain: nat, s: Bound, e: Bound) {
    e == Excluded(0) || (EndOk(e, remain) && StartOf(s) <= EndOf(e, remain))
  }

  /** `slice(range)`, with each chunk cut to the part inside the range. */
  function Slice(q: ByteQueue, s: Bound, e: Bound): (r: ByteQueue)
    requires q.Valid() && SliceOk(Len(q), s, e)
    ensures r.Valid()
    ensures e == Excluded(0) ==> r.Bytes() == []
    ensures e != Excluded(0) ==> r.Bytes() == q.Bytes()[StartOf(s)..EndOf(e, Len(q))]
  {
    if e == Excluded(0) then New()
    else
      var start := StartOf(s);
      var end := EndOf(e, Len(q));
      EmptyConcat(q.Bytes()[start..end]);
      SliceChunks(q.Chunks(), start, end - start, New())
  }

  /** The loop of `slice`: skip chunks that end before `start`, then
      push the part of each chunk that lies inside the next `max` bytes. */
  function SliceChunks(cs: seq<B.ByteData>, start: nat, max: nat, out: ByteQueue): (r: ByteQueue)
    requires AllValid(cs) && out.Valid() && start + max <= |Concat(cs)|
    ensures r.Valid() && r.Bytes() == out.Bytes() + Concat(cs)[start..start + max]
    decreases |cs|, 1
  {
    if |cs| == 0 || max == 0 then
      assert Concat(cs)[start..start + max] == [];
      out
    else if start >= cs[0].Len() then SliceSkip(cs, start, max, out)
    else SliceTake(cs, start, max, out)
  }

  /** A chunk that ends before `start` is passed over. */
  function SliceSkip(cs: seq<B.ByteData>, start: nat, max: nat, out: ByteQueue): (r: ByteQueue)
    requires AllValid(cs) && out.Valid() && start + max <= |Concat(cs)|
    requires |cs| > 0 && start >= cs[0].Len()
    ensures r.Valid() && r.Bytes() == out.Bytes() + Concat(cs)[start..start + max]
    decreases |cs|, 0
  {
    SkipStep(cs, start, max);
    SliceChunks(cs[1..], start - cs[0].Len(), max, out)
  }

  lemma SkipStep(cs: seq<B.ByteData>, start: nat, max: nat)
    requires AllValid(cs) && start + max <= |Concat(cs)|
    requires |cs| > 0 && start >= cs[0].Len()
    ensures AllValid(cs[1..])
    ensures var s := start - cs[0].Len();
      && s + max <= |Concat(cs[1..])|
      && Concat(cs[1..])[s..s + max] == Concat(cs)[start..start + max]
  {
    ConcatCons(cs);
    WindowInSecond(cs[0].AsSlice(), Concat(cs[1..]), start, start + max);
  }

  /** A chunk that `start` falls inside gives its part in the range;
      the walk goes on from the next chunk's start. */
  function SliceTake(cs: seq<B.ByteData>, start: nat, max: nat, out: ByteQueue): (r: ByteQueue)
    requires AllValid(cs) && out.Valid() && start + max <= |Concat(cs)|
    requires |cs| > 0 && start < cs[0].Len()
    ensures r.Valid() && r.Bytes() == out.Bytes() + Concat(cs)[start..start + max]
    decreases |cs|, 0
  {
    var k := LI.Min(max, cs[0].Len() - start);
    var p := Piece(cs[0], start, max);
    var out' := PushBack(out, p);
    TakeStep(cs, start, max, out.Bytes(), p.AsSlice(), out'.Bytes());
    SliceChunks(cs[1..], 0, max - k, out')
  }

  lemma TakeStep(cs: seq<B.ByteData>, start: nat, max: nat, o: seq<byte>, p: seq<byte>, o': seq<byte>)
    requires AllValid(cs) && start + max <= |Concat(cs)|
    requires |cs| > 0 && start < cs[0].Len()
    requires p == cs[0].AsSlice()[start..start + LI.Min(max, cs[0].Len() - start)]
    requires o' == o + p
    ensures AllValid(cs[1..])
    ensures var k := LI.Min(max, cs[0].Len() - start);
      && max - k <= |Concat(cs[1..])|
      && o' + Concat(cs[1..])[0..max - k] == o + Concat(cs)[start..start + max]
  {
    ConcatCons(cs);
    TakeAcross(o, cs[0].AsSlice(), Concat(cs[1..]), start, max, LI.Min(max, cs[0].Len() - start));
  }

  /** The part of chunk `v` that the range keeps: `v` itself (a clone)
      when the range starts at its start and covers it, otherwise
      `v.sliced(start..start + min(max, len - start))`. */
  function Piece(v: B.ByteData, start: nat, max: nat): (p: B.ByteData)
    requires v.Valid() && start < v.Len()
    ensures p.Valid() && p.AsSlice() == v.AsSlice()[start..start + LI.Min(max, v.Len() - start)]
  {
    if start != 0 || max < v.Len() then B.Sliced(v, start, start + LI.Min(max, v.Len() - start))
    else v
  }

  /** Taking `k` bytes from the first part, then the rest from the
      second, takes the window of the whole. */
  lemma TakeAcross(o: seq<byte>, a: seq<byte>, b: seq<byte>, start: nat, max: nat, k: nat)
    requires start < |a| && start + max <= |a| + |b|
    requires k == LI.Min(max, |a| - start)
    ensures (o + a[start..start + k]) + b[0..max - k] == o + (a + b)[start..start + max]
  {
    if k == max {
      WindowInFirst(a, b, start, start + max);
    } else {
      WindowAcross(a, b, start, start + max);
    }
    ConcatAssoc(o, a[start..start + k], b[0..max - k]);
  }

  /** `slice` as written: a chunk entered part-way is cut at
      `start..min(max, len - start)`, a length where an end is meant.
      `None` is the panic of `sliced` when that end falls before the
      start. */
  function SliceAsWritten(q: ByteQueue, s: Bound, e: Bound): (r: Option<ByteQueue>)
    requires q.Valid() && SliceOk(Len(q), s, e)
    ensures r.Some? ==> r.value.Valid()
    ensures e == Excluded(0) ==> r == Some(New())
  {
    if e == Excluded(0) then Some(New())
    else
      var start := StartOf(s);
      SliceChunksAsWritten(q.Chunks(), start, EndOf(e, Len(q)) - start, New())
  }

  function SliceChunksAsWritten(cs: seq<B.ByteData>, start: nat, max: nat, out: ByteQueue): (r: Option<ByteQueue>)
    requires AllValid(cs) && out.Valid()
    ensures r.Some? ==> r.value.Valid()
    decreases |cs|
  {
    if |cs| == 0 || max == 0 then Some(out)
    else if start >= cs[0].Len() then SliceChunksAsWritten(cs[1..], start - cs[0].Len(), max, out)
    else
      match PieceAsWritten(cs[0], start, max)
      case None => None
      case Some(p) => SliceChunksAsWritten(cs[1..], 0, max - p.Len(), PushBack(out, p))
  }

  /** The cut of `slice` as written: `v.sliced(start..min(max, len - start))`,
      `None` where `sliced` panics on an end before the start. */
  function PieceAsWritten(v: B.ByteData, start: nat, max: nat): (r: Option<B.ByteData>)
    requires v.Valid() && start < v.Len()
    ensures r.Some? ==> r.value.Valid() && r.value.Len() <= max
    ensures r.None? <==> start > LI.Min(max, v.Len() - start)
  {
    if start != 0 || max < v.Len() then
      var end := LI.Min(max, v.Len() - start);
      if start > end then None else Some(B.Sliced(v, start, end))
    else Some(v)
  }

  /** On a single 16-byte chunk, `2..4` as written yields no bytes where
      two are meant. */
  lemma SliceAsWrittenLosesBytes(d: B.ByteData)
    requires d.Valid() && d.Len() == 16
    ensures SliceAsWritten(WithItem(d), Included(2), Excluded(4)).Some?
    ensures SliceAsWritten(WithItem(d), Included(2), Excluded(4)).value.Bytes() == []
    ensures |Slice(WithItem(d), Included(2), Excluded(4)).Bytes()| == 2
  {
    var q := WithItem(d);
    assert q.Chunks() == [d];
    assert [d][1..] == [];
    var p := B.Sliced(d, 2, 2);
    assert PieceAsWritten(d, 2, 2) == Some(p);
    assert p.IsEmpty();
    assert PushBack(New(), p) == New();
    assert SliceChunksAsWritten([d], 2, 2, New()) == SliceChunksAsWritten([], 0, 2, New());
  }

  /** On a single 8-byte chunk, `5..6` as written panics, though the
      range lies inside the queue. */
  lemma SliceAsWrittenPanics(d: B.ByteData)
    requires d.Valid() && d.Len() == 8
    ensures SliceOk(Len(WithItem(d)), Included(5), Excluded(6))
    ensures SliceAsWritten(WithItem(d), Included(5), Excluded(6)).None?
  {
    var q := WithItem(d);
    assert q.Chunks() == [d];
  }

  /* ---- Search ---- */

  lemma {:induction false} SlicesNonEmpty(cs: seq<B.ByteData>)
    requires AllValid(cs) && L.AllNonEmpty(cs)
    ensures CW.NonEmptyParts(Slices(cs))
    decreases |cs|
  {
    if |cs| > 0 {
      SlicesNonEmpty(cs[1..]);
      assert Slices(cs)[1..] == Slices(cs[1..]);
    }
  }

  /** The queue's chunks as byte slices, none of them empty. */
  function Parts(q: ByteQueue): (ps: seq<seq<byte>>)
    requires q.Valid()
    ensures CW.NonEmptyParts(ps) && Flatten(ps) == q.Bytes()
  {
    L.ContentNonEmpty(q.root);
    SlicesNonEmpty(q.Chunks());
    Slices(q.Chunks())
  }

  /** `exists_at`: `data` occurs at `index`. */
  function ExistsAt(q: ByteQueue, index: nat, data: seq<byte>): (r: bool)
    requires q.Valid()
    ensures r <==> index + |data| <= Len(q) && q.Bytes()[index..index + |data|] == data
  {
    CW.ExistsAt(Parts(q), index, data)
  }

  /** `starts_with`. */
  function StartsWith(q: ByteQueue, data: seq<byte>): (r: bool)
    requires q.Valid()
    ensures r <==> |data| <= Len(q) && q.Bytes()[..|data|] == data
  {
    if |data| > Len(q) then false else ExistsAt(q, 0, data)
  }

  /** `ends_with`. */
  function EndsWith(q: ByteQueue, data: seq<byte>): (r: bool)
    requires q.Valid()
    ensures r <==> |data| <= Len(q) && q.Bytes()[Len(q) - |data|..] == data
  {
    if |data| > Len(q) then false else ExistsAt(q, Len(q) - |data|, data)
  }

  /* ---- Equality and order ---- */

  /** `PartialEq<ByteQueue>`: equal bytes, however they are chunked. */
  function Eq(a: ByteQueue, b: ByteQueue): (r: bool)
    requires a.Valid() && b.Valid()
    ensures r <==> a.Bytes() == b.Bytes()
  {
    var x := CW.Start(Parts(a));
    var y := CW.Start(Parts(b));
    CW.EqWalk(x.0, x.1, y.0, y.1)
  }

  /** `PartialEq<[u8]>`, and the mirrored `PartialEq<ByteQueue> for [u8]`. */
  function EqualSlice(q: ByteQueue, other: seq<byte>): (r: bool)
    requires q.Valid()
    ensures r <==> q.Bytes() == other
  {
    var x := CW.Start(Parts(q));
    assert CW.Ahead(other, []) == other;
    CW.EqWalk(x.0, x.1, other, [])
  }

  /** `Ord::cmp`, and `partial_cmp`, which is always `Some` of it. */
  function Cmp(a: ByteQueue, b: ByteQueue): (r: Ordering)
    requires a.Valid() && b.Valid()
    ensures r == LexCmp(a.Bytes(), b.Bytes())
  {
    var x := CW.Start(Parts(a));
    var y := CW.Start(Parts(b));
    CW.CmpWalk(x.0, x.1, y.0, y.1)
  }

  /** `PartialOrd<[u8]>` (always `Some`). */
  function CmpSlice(q: ByteQueue, other: seq<byte>): (r: Ordering)
    requires q.Valid()
    ensures r == LexCmp(q.Bytes(), other)
  {
    var x := CW.Start(Parts(q));
    assert CW.Ahead(other, []) == other;
    CW.CmpWalk(x.0, x.1, other, [])
  }

  /** `PartialOrd<ByteQueue> for [u8]`: the queue's comparison, reversed. */
  function SliceCmp(other: seq<byte>, q: ByteQueue): (r: Ordering)
    requires q.Valid()
    ensures r == LexCmp(other, q.Bytes())
  {
    LexCmpAntisymmetric(q.Bytes(), other);
    CmpSlice(q, other).Reverse()
  }

  /** `Eq` and `Ord` agree, and the order is antisymmetric. */
  lemma CmpAgreesWithEqual(a: ByteQueue, b: ByteQueue)
    requires a.Valid() && b.Valid()
    ensures Cmp(a, b) == Equal <==> Eq(a, b)
    ensures Cmp(b, a) == Cmp(a, b).Reverse()
  {
    LexCmpEqualIff(a.Bytes(), b.Bytes());
    LexCmpAntisymmetric(a.Bytes(), b.Bytes());
  }
}
