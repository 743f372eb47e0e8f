/** `ChunkIter` and `StrChunkIter`: owning iterators over the chunks of
    a queue. They own the root and pop from it at either end. */
module ChunkIter {
  import opened Wrappers
  import L = LinkedRoot
  import B = ByteData
  import S = StringData
  import Seqs

  datatype ChunkIter = ChunkIter(root: L.Root) {
    ghost predicate Valid() {
      root.Valid()
    }

    /** The chunks not yet yielded from either end. */
    function Remaining(): seq<B.ByteData>
      requires Valid()
    {
      root.Content()
    }
  }

  /** `next` is `pop_front`; `None` once empty, and on every later call. */
  function Next(it: ChunkIter): (r: Option<(B.ByteData, ChunkIter)>)
    requires it.Valid()
    ensures r.None? <==> it.Remaining() == []
    ensures r.Some? ==> (r.value.1.Valid()
      && it.Remaining() == [r.value.0] + r.value.1.Remaining()
      && Len(r.value.1) == Len(it) - 1)
  {
    match L.PopFront(it.root)
    case None => None
    case Some((x, root)) => Some((x, ChunkIter(root)))
  }

  /** `next_back` is `pop_back`. */
  function NextBack(it: ChunkIter): (r: Option<(B.ByteData, ChunkIter)>)
    requires it.Valid()
    ensures r.None? <==> it.Remaining() == []
    ensures r.Some? ==> (r.value.1.Valid()
      && it.Remaining() == r.value.1.Remaining() + [r.value.0]
      && Len(r.value.1) == Len(it) - 1)
  {
    match L.PopBack(it.root)
    case None => None
    case Some((x, root)) => Some((x, ChunkIter(root)))
  }

  /** `len`, `count` and both bounds of `size_hint`: the root's count. */
  function Len(it: ChunkIter): (n: nat)
    requires it.Valid()
    ensures n == |it.Remaining()|
  {
    it.root.Len()
  }

  /** Calling `next` until `None` yields the chunks front to back. */
  function Collect(it: ChunkIter): (r: seq<B.ByteData>)
    requires it.Valid()
    ensures r == it.Remaining()
    decreases Len(it)
  {
    match Next(it)
    case None => []
    case Some((x, it')) => [x] + Collect(it')
  }

  /** Calling `next_back` until `None` yields them back to front. */
  function CollectBack(it: ChunkIter): (r: seq<B.ByteData>)
    requires it.Valid()
    ensures r == Seqs.Reverse(it.Remaining())
    decreases Len(it)
  {
    match NextBack(it)
    case None => []
    case Some((x, it')) =>
      Seqs.ReverseSnoc(it'.Remaining(), x);
      [x] + CollectBack(it')
  }

  /* ---- StrChunkIter: the same, with each chunk seen as StringData ---- */

  function StrNext(it: ChunkIter): (r: Option<(S.StringData, ChunkIter)>)
    requires it.Valid()
    ensures r.None? <==> it.Remaining() == []
    ensures r.Some? ==> (r.value.1.Valid()
      && it.Remaining() == [r.value.0.data] + r.value.1.Remaining())
  {
    match Next(it)
    case None => None
    case Some((x, it')) => Some((S.StringData(x), it'))
  }

  function StrNextBack(it: ChunkIter): (r: Option<(S.StringData, ChunkIter)>)
    requires it.Valid()
    ensures r.None? <==> it.Remaining() == []
    ensures r.Some? ==> (r.value.1.Valid()
      && it.Remaining() == r.value.1.Remaining() + [r.value.0.data])
  {
    match NextBack(it)
    case None => None
    case Some((x, it')) => Some((S.StringData(x), it'))
  }
}
