/** `StringQueue`: a `ByteQueue` whose chunks are each valid UTF-8. Every
    operation delegates to the byte queue and reads its chunks back as
    `StringData`. */
module StringQueue {
  import opened Wrappers
  import opened Bytes
  import opened Seqs
  import BQ = ByteQueue
  import L = LinkedRoot
  import B = ByteData
  import S = StringData
  import CI = ChunkIter
  import Utf8

  /** Each chunk is a valid value holding valid UTF-8. */
  ghost predicate AllStr(cs: seq<B.ByteData>) {
    forall i :: 0 <= i < |cs| ==> cs[i].Valid() && Utf8.Valid(cs[i].AsSlice())
  }

  lemma AllStrAppend(a: seq<B.ByteData>, b: seq<B.ByteData>)
    ensures AllStr(a + b) <==> AllStr(a) && AllStr(b)
  {
    if AllStr(a + b) {
      forall i | 0 <= i < |a|
        ensures a[i].Valid() && Utf8.Valid(a[i].AsSlice())
      {
        assert (a + b)[i] == a[i];
      }
      forall i | 0 <= i < |b|
        ensures b[i].Valid() && Utf8.Valid(b[i].AsSlice())
      {
        assert (a + b)[|a| + i] == b[i];
      }
    }
    if AllStr(a) && AllStr(b) {
      forall i | 0 <= i < |a + b|
        ensures (a + b)[i].Valid() && Utf8.Valid((a + b)[i].AsSlice())
      {
        if i >= |a| {
          assert (a + b)[i] == b[i - |a|];
        }
      }
    }
  }

  /** Chunks of valid UTF-8 concatenate to valid UTF-8. */
  lemma {:induction false} ConcatStr(cs: seq<B.ByteData>)
    requires AllStr(cs)
    ensures BQ.AllValid(cs) && Utf8.Valid(BQ.Concat(cs))
    decreases |cs|
  {
    if |cs| == 0 {
      assert BQ.Concat(cs) == [];
      assert Utf8.Valid([]);
    } else {
      AllStrAppend([cs[0]], cs[1..]);
      assert cs == [cs[0]] + cs[1..];
      ConcatStr(cs[1..]);
      BQ.ConcatCons(cs);
      Utf8.ValidConcat(cs[0].AsSlice(), BQ.Concat(cs[1..]));
    }
  }

  datatype StringQueue = StringQueue(queue: BQ.ByteQueue) {
    ghost predicate Valid() {
      queue.Valid() && AllStr(queue.Chunks())
    }

    function Chunks(): seq<B.ByteData>
      requires Valid()
    {
      queue.Chunks()
    }

    function Bytes(): seq<byte>
      requires Valid()
    {
      queue.Bytes()
    }
  }

  /** The queue's bytes are valid UTF-8. */
  lemma BytesUtf8(q: StringQueue)
    requires q.Valid()
    ensures Utf8.Valid(q.Bytes())
  {
    ConcatStr(q.Chunks());
  }

  /** `new`. */
  function New(): (q: StringQueue)
    ensures q.Valid() && q.Bytes() == [] && q.Chunks() == []
  {
    StringQueue(BQ.New())
  }

  /** `with_item` (and the `From` conversions built on it): one chunk,
      or none for the empty string. */
  function WithItem(s: S.StringData): (q: StringQueue)
    requires s.Valid()
    ensures q.Valid() && q.Bytes() == s.AsBytes() && q.Chunks() == L.ChamberPart(s.data)
  {
    StringQueue(BQ.WithItem(s.data))
  }

  /** The inner `push_back` that `from_iter` uses. */
  function PushBack(q: StringQueue, s: S.StringData): (r: StringQueue)
    requires q.Valid() && s.Valid()
    ensures r.Valid()
    ensures r.Bytes() == q.Bytes() + s.AsBytes()
    ensures r.Chunks() == q.Chunks() + L.ChamberPart(s.data)
  {
    var bq := BQ.PushBack(q.queue, s.data);
    AllStrAppend(q.Chunks(), L.ChamberPart(s.data));
    StringQueue(bq)
  }

  /** `pop_front`: the byte queue's first chunk, read as a string. */
  function PopFront(q: StringQueue): (r: Option<(S.StringData, StringQueue)>)
    requires q.Valid()
    ensures r.None? <==> q.Bytes() == []
    ensures r.Some? ==> (r.value.0.Valid() && r.value.1.Valid()
      && q.Chunks() == [r.value.0.data] + r.value.1.Chunks()
      && q.Bytes() == r.value.0.AsBytes() + r.value.1.Bytes())
  {
    match BQ.PopFront(q.queue)
    case None => None
    case Some((x, rest)) =>
      AllStrAppend([x], rest.Chunks());
      Some((S.StringData(x), StringQueue(rest)))
  }

  /** `pop_back`: the last chunk, read as a string. */
  function PopBack(q: StringQueue): (r: Option<(S.StringData, StringQueue)>)
    requires q.Valid()
    ensures r.None? <==> q.Bytes() == []
    ensures r.Some? ==> (r.value.0.Valid() && r.value.1.Valid()
      && q.Chunks() == r.value.1.Chunks() + [r.value.0.data]
      && q.Bytes() == r.value.1.Bytes() + r.value.0.AsBytes())
  {
    match BQ.PopBack(q.queue)
    case None => None
    case Some((x, rest)) =>
      AllStrAppend(rest.Chunks(), [x]);
      assert [x][0] == x;
      Some((S.StringData(x), StringQueue(rest)))
  }

  predicate IsEmpty(q: StringQueue)
    requires q.Valid()
    ensures IsEmpty(q) <==> q.Bytes() == []
  {
    BQ.IsEmpty(q.queue)
  }

  function Len(q: StringQueue): (n: nat)
    requires q.Valid()
    ensures n == |q.Bytes()|
  {
    BQ.Len(q.queue)
  }

  function ChunkLen(q: StringQueue): (n: nat)
    requires q.Valid()
    ensures n == |q.Chunks()|
  {
    BQ.ChunkLen(q.queue)
  }

  function StartsWith(q: StringQueue, data: seq<byte>): (r: bool)
    requires q.Valid()
    ensures r <==> |data| <= |q.Bytes()| && q.Bytes()[..|data|] == data
  {
    BQ.StartsWith(q.queue, data)
  }

  function EndsWith(q: StringQueue, data: seq<byte>): (r: bool)
    requires q.Valid()
    ensures r <==> |data| <= |q.Bytes()| && q.Bytes()[|q.Bytes()| - |data|..] == data
  {
    BQ.EndsWith(q.queue, data)
  }

  /** `into_iter`: a `StrChunkIter` over the chunks. */
  function IntoIter(q: StringQueue): (it: CI.ChunkIter)
    requires q.Valid()
    ensures it.Valid() && it.Remaining() == q.Chunks() && AllStr(it.Remaining())
  {
    CI.ChunkIter(q.queue.root)
  }

  /** The underlying values of a list of strings. */
  function Datas(ss: seq<S.StringData>): (ds: seq<B.ByteData>)
    ensures |ds| == |ss|
    ensures forall i :: 0 <= i < |ss| ==> ds[i] == ss[i].data
  {
    seq(|ss|, i requires 0 <= i < |ss| => ss[i].data)
  }

  ghost predicate AllValidStr(ss: seq<S.StringData>) {
    forall i :: 0 <= i < |ss| ==> ss[i].Valid()
  }

  /** `from_iter`: `push_back` of each item, so empty strings leave no
      chunk and the rest become the chunks in order. */
  function FromIter(ss: seq<S.StringData>): (q: StringQueue)
    requires AllValidStr(ss)
    ensures q.Valid() && q.Chunks() == L.NonEmpty(Datas(ss))
    ensures BQ.AllValid(Datas(ss)) && q.Bytes() == BQ.Concat(Datas(ss))
  {
    var q := PushAll(New(), ss);
    EmptyConcat(L.NonEmpty(Datas(ss)));
    NonEmptyConcat(Datas(ss));
    q
  }

  function PushAll(q: StringQueue, ss: seq<S.StringData>): (r: StringQueue)
    requires q.Valid() && AllValidStr(ss)
    ensures r.Valid() && r.Chunks() == q.Chunks() + L.NonEmpty(Datas(ss))
    decreases |ss|
  {
    if |ss| == 0 then
      assert Datas(ss) == [];
      q
    else
      var q' := PushBack(q, ss[0]);
      var r := PushAll(q', ss[1..]);
      assert Datas(ss)[1..] == Datas(ss[1..]);
      ConcatAssoc(q.Chunks(), L.ChamberPart(ss[0].data), L.NonEmpty(Datas(ss[1..])));
      r
  }

  /** A queue built from strings holds their bytes one after the other. */
  lemma {:induction false} NonEmptyConcat(ds: seq<B.ByteData>)
    requires BQ.AllValid(ds)
    ensures BQ.AllValid(L.NonEmpty(ds)) && BQ.Concat(L.NonEmpty(ds)) == BQ.Concat(ds)
    decreases |ds|
  {
    if |ds| == 0 {
    } else {
      NonEmptyConcat(ds[1..]);
      BQ.ConcatChamberPart(ds[0]);
      BQ.ConcatAppend(L.ChamberPart(ds[0]), L.NonEmpty(ds[1..]));
      BQ.ConcatCons(ds);
    }
  }

  /** `From<StringQueue> for StringData`: the flattened bytes, which are
      valid UTF-8. */
  function IntoStringData(q: StringQueue): (r: BQ.Flattened)
    requires q.Valid() && Len(q) <= 0xFFFF_FFF7
    ensures r.Valid() && r.AsSlice() == q.Bytes() && Utf8.Valid(r.AsSlice())
  {
    BytesUtf8(q);
    BQ.IntoByteData(q.queue)
  }
}
