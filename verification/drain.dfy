/** `DrainBytes` and `do_drain`: draining a byte range out of a queue.
    The iterator yields the bytes of the range; dropping it removes them
    from the queue, cutting at most one chunk at each end of the range. */
module Drain {
  import opened Wrappers
  import opened Bytes
  import opened Seqs
  import BQ = ByteQueue
  import BI = ByteIter
  import LI = LinkedIter
  import B = ByteData

  /* ---- do_drain ---- */

  /** `do_drain`: with the range at the front, chunks are popped off the
      front; with the range at the back, off the back; otherwise the
      queue is split at `start`, the range drained off the front of the
      second half, and the halves joined again. The bytes before
      `start` and from `end` on stay, in order; an `end` past the queue
      removes everything from `start` on. */
  function DoDrain(q: BQ.ByteQueue, start: nat, end: nat): (r: BQ.ByteQueue)
    requires q.Valid() && start <= end && start <= BQ.Len(q)
    ensures r.Valid() && r.Bytes() == q.Bytes()[..start] + q.Bytes()[LI.Min(end, BQ.Len(q))..]
  {
    if start == 0 then DrainHead(q, end)
    else if end == BQ.Len(q) then DrainTail(q, start)
    else DrainMiddle(q, start, end)
  }

  /** The `start == 0` case. */
  function DrainHead(q: BQ.ByteQueue, end: nat): (r: BQ.ByteQueue)
    requires q.Valid()
    ensures r.Valid() && r.Bytes() == q.Bytes()[..0] + q.Bytes()[LI.Min(end, BQ.Len(q))..]
  {
    var r := DrainFront(q, end);
    Cut(q.Bytes(), 0, end, r.Bytes());
    r
  }

  /** The `end == len` case. */
  function DrainTail(q: BQ.ByteQueue, start: nat): (r: BQ.ByteQueue)
    requires q.Valid() && start <= BQ.Len(q)
    ensures r.Valid() && r.Bytes() == q.Bytes()[..start] + q.Bytes()[BQ.Len(q)..]
  {
    var r := DrainBack(q, start);
    Cut(q.Bytes(), start, BQ.Len(q), r.Bytes());
    r
  }

  /** The general case: split at `start`, drain the front of the second
      half, join the halves. */
  function DrainMiddle(q: BQ.ByteQueue, start: nat, end: nat): (r: BQ.ByteQueue)
    requires q.Valid() && start <= end && start <= BQ.Len(q)
    ensures r.Valid() && r.Bytes() == q.Bytes()[..start] + q.Bytes()[LI.Min(end, BQ.Len(q))..]
  {
    var halves := SplitOff(q, start);
    var back := DrainFront(halves.1, end - start);
    var r := Append(halves.0, back);
    Join(q.Bytes(), start, end, halves.0.Bytes(), halves.1.Bytes(), back.Bytes(), r.Bytes());
    r
  }

  /** What each case leaves is the cut the drain promises. */
  lemma Cut(b: seq<byte>, start: nat, end: nat, r: seq<byte>)
    requires start <= end && start <= |b|
    requires (start == 0 && r == b[LI.Min(end, |b|)..]) || (end == |b| && r == b[..start])
    ensures r == b[..start] + b[LI.Min(end, |b|)..]
  {
    if start == 0 {
      assert b[..0] == [];
    } else {
      assert b[end..] == [];
    }
  }

  /** The halves, the second drained, joined again. */
  lemma Join(b: seq<byte>, start: nat, end: nat, h0: seq<byte>, h1: seq<byte>, h1': seq<byte>, r: seq<byte>)
    requires start <= end && start <= |b|
    requires h0 == b[..start] && h1 == b[start..]
    requires h1' == h1[LI.Min(end - start, |h1|)..] && r == h0 + h1'
    ensures r == b[..start] + b[LI.Min(end, |b|)..]
  {
    DropDrop(b, start, LI.Min(end, |b|) - start);
  }

  /** The loop of the `start == 0` case (and of the general case on the
      second half): a chunk longer than what is left to remove keeps its
      tail; otherwise it is dropped, and the loop ends when nothing is
      left to remove or the queue runs out. Removes `min(end, len)`
      bytes. */
  function DrainFront(q: BQ.ByteQueue, end: nat): (r: BQ.ByteQueue)
    requires q.Valid()
    ensures r.Valid() && r.Bytes() == q.Bytes()[LI.Min(end, BQ.Len(q))..]
    decreases BQ.Len(q), 1
  {
    match BQ.PopFront(q)
    case None => q
    case Some((aa, q1)) => FrontRound(aa, q1, end)
  }

  /** One round of the front loop, on the chunk `aa` just popped. */
  function FrontRound(aa: B.ByteData, q1: BQ.ByteQueue, end: nat): (r: BQ.ByteQueue)
    requires aa.Valid() && aa.Len() > 0 && q1.Valid()
    ensures r.Valid()
    ensures var all := aa.AsSlice() + q1.Bytes(); r.Bytes() == all[LI.Min(end, |all|)..]
    decreases BQ.Len(q1) + aa.Len(), 0
  {
    if aa.Len() > end then BQ.PushFrontTail(aa, q1, end)
    else
      var left := end - aa.Len();
      FrontDropped(aa.AsSlice(), q1.Bytes(), end);
      if left != 0 then DrainFront(q1, left) else q1
  }

  /** Dropping a whole chunk `a` no longer than `end` leaves `end - |a|`
      to remove from the rest. */
  lemma FrontDropped(a: seq<byte>, b: seq<byte>, end: nat)
    requires |a| <= end
    ensures (a + b)[LI.Min(end, |a + b|)..] == b[LI.Min(end - |a|, |b|)..]
  {
    DropDrop(a + b, |a|, LI.Min(end, |a + b|) - |a|);
    assert (a + b)[|a|..] == b;
  }

  /** The loop of the `end == len` case: chunks are popped off the back
      until what stays is no longer than `start`; a chunk that straddles
      `start` keeps its head. */
  function DrainBack(q: BQ.ByteQueue, start: nat): (r: BQ.ByteQueue)
    requires q.Valid() && start <= BQ.Len(q)
    ensures r.Valid() && r.Bytes() == q.Bytes()[..start]
    decreases BQ.Len(q), 1
  {
    match BQ.PopBack(q)
    case None => q
    case Some((av, q1)) => BackRound(av, q1, start)
  }

  /** One round of the back loop, on the chunk `av` just popped. */
  function BackRound(av: B.ByteData, q1: BQ.ByteQueue, start: nat): (r: BQ.ByteQueue)
    requires av.Valid() && av.Len() > 0 && q1.Valid() && start <= BQ.Len(q1) + av.Len()
    ensures r.Valid() && r.Bytes() == (q1.Bytes() + av.AsSlice())[..start]
    decreases BQ.Len(q1) + av.Len(), 0
  {
    if BQ.Len(q1) < start then
      var p := B.MakeSliced(av, 0, start - BQ.Len(q1));
      BackKept(q1.Bytes(), av.AsSlice(), start, p.AsSlice());
      BQ.PushBack(q1, p)
    else
      BackDropped(q1.Bytes(), av.AsSlice(), start);
      if start != BQ.Len(q1) then DrainBack(q1, start) else q1
  }

  /** The straddling chunk contributes its first `start - |a|` bytes. */
  lemma BackKept(a: seq<byte>, b: seq<byte>, start: nat, p: seq<byte>)
    requires |a| < start <= |a| + |b| && p == b[0..start - |a|]
    ensures a + p == (a + b)[..start]
  {
    assert (a + b)[..start] == a + b[..start - |a|];
  }

  /** A chunk wholly past `start` is dropped without loss. */
  lemma BackDropped(a: seq<byte>, b: seq<byte>, start: nat)
    requires start <= |a|
    ensures (a + b)[..start] == a[..start]
  {
    assert (a + b)[..start] == a[..start];
  }

  /** `split_off(at)`: the queue keeps the first `at` bytes and the
      returned queue holds the rest. Its implementation is not part of
      this model; it is given here by those two contents, built from
      the owning iterator's `take` and the queue's consuming pops. */
  function SplitOff(q: BQ.ByteQueue, at: nat): (r: (BQ.ByteQueue, BQ.ByteQueue))
    requires q.Valid() && at <= BQ.Len(q)
    ensures r.0.Valid() && r.1.Valid()
    ensures r.0.Bytes() == q.Bytes()[..at] && r.1.Bytes() == q.Bytes()[at..]
  {
    (BI.TakeQueue(q, at), BQ.Consume(q, at))
  }

  /** `append`: the chunks of `b` go after those of `a`. */
  function Append(a: BQ.ByteQueue, b: BQ.ByteQueue): (r: BQ.ByteQueue)
    requires a.Valid() && b.Valid()
    ensures r.Valid() && r.Bytes() == a.Bytes() + b.Bytes()
  {
    BQ.Extend(a, b.Chunks())
  }

  /* ---- DrainBytes ---- */

  /** The iterator over the bytes of the range, `None` once taken by
      `count`, `last` or the drop; and the range itself. */
  datatype DrainBytes = DrainBytes(queue: Option<BI.ByteIter>, start: nat, end: nat) {
    ghost predicate Valid() {
      && start <= end
      && (queue.Some? ==> queue.value.Valid())
    }

    /** The bytes still to be yielded. */
    function Remaining(): seq<byte>
      requires Valid()
    {
      if queue.Some? then queue.value.Remaining() else []
    }
  }

  /** `DrainBytes::new`: the queue's byte iterator, skipped to `start`
      and cut to `end - start` bytes. It yields the bytes of the range,
      as far as the queue reaches. */
  function New(q: BQ.ByteQueue, start: nat, end: nat): (d: DrainBytes)
    requires q.Valid() && start <= end
    ensures d.Valid() && d.start == start && d.end == end
    ensures d.Remaining() == q.Bytes()[LI.Min(start, BQ.Len(q))..LI.Min(end, BQ.Len(q))]
  {
    var all := BI.New(q);
    var skipped := BI.Skip(all, start);
    var it := BI.Take(skipped, end - start);
    var s := LI.Min(start, BQ.Len(q));
    assert skipped.Remaining() == q.Bytes()[s..];
    RangeOfDrop(q.Bytes(), s, LI.Min(end, BQ.Len(q)), end - start);
    DrainBytes(Some(it), start, end)
  }

  /** Cutting the suffix from `s` to `n` bytes ends it at `min(end, len)`
      whenever `n == end - start` and `s == min(start, len)`. */
  lemma RangeOfDrop(b: seq<byte>, s: nat, e: nat, n: nat)
    requires s <= e <= |b|
    requires s == |b| || e == s + n || (e == |b| && |b| - s <= n)
    ensures (if |b[s..]| > n then b[s..][..n] else b[s..]) == b[s..e]
  {
    if |b[s..]| > n {
      assert b[s..][..n] == b[s..s + n];
    }
  }

  /** `next`: delegates to the byte iterator; `None` once it is taken. */
  function Next(d: DrainBytes): (r: Option<(byte, DrainBytes)>)
    requires d.Valid()
    ensures r.None? <==> d.Remaining() == []
    ensures r.Some? ==> (r.value.1.Valid()
      && d.Remaining() == [r.value.0] + r.value.1.Remaining())
  {
    if d.queue.None? then None
    else
      match BI.Next(d.queue.value)
      case None => None
      case Some((b, it)) => Some((b, DrainBytes(Some(it), d.start, d.end)))
  }

  /** `len`, `count` and both bounds of `size_hint`: the byte iterator's,
      0 once it is taken. */
  function Len(d: DrainBytes): (n: nat)
    requires d.Valid()
    ensures n == |d.Remaining()|
  {
    if d.queue.None? then 0 else BI.Len(d.queue.value)
  }

  /** `nth`: delegates to the byte iterator. */
  function Nth(d: DrainBytes, n: nat): (r: Option<(byte, DrainBytes)>)
    requires d.Valid()
    ensures r.None? <==> n >= |d.Remaining()|
    ensures r.Some? ==> (r.value.0 == d.Remaining()[n]
      && r.value.1.Valid() && r.value.1.Remaining() == d.Remaining()[n + 1..])
  {
    if d.queue.None? then None
    else
      match BI.Nth(d.queue.value, n)
      case None => None
      case Some((b, it)) => Some((b, DrainBytes(Some(it), d.start, d.end)))
  }

  /** `last`: the byte iterator's last byte. */
  function Last(d: DrainBytes): (r: Option<byte>)
    requires d.Valid()
    ensures r.None? <==> d.Remaining() == []
    ensures r.Some? ==> r.value == d.Remaining()[|d.Remaining()| - 1]
  {
    if d.queue.None? then None else BI.Last(d.queue.value)
  }

  /** Dropping the iterator: an empty range leaves the queue as it is;
      otherwise `do_drain` removes the range. */
  function Drop(q: BQ.ByteQueue, d: DrainBytes): (r: BQ.ByteQueue)
    requires q.Valid() && d.Valid() && d.start <= BQ.Len(q)
    ensures r.Valid() && r.Bytes() == q.Bytes()[..d.start] + q.Bytes()[LI.Min(d.end, BQ.Len(q))..]
  {
    if d.start == d.end then
      assert q.Bytes() == q.Bytes()[..d.start] + q.Bytes()[d.start..];
      q
    else DoDrain(q, d.start, d.end)
  }

  /** What a fresh drain yields and what its drop leaves put the queue
      back together: the bytes before the range, the range, the rest. */
  lemma DrainPartitions(q: BQ.ByteQueue, start: nat, end: nat)
    requires q.Valid() && start <= end <= BQ.Len(q)
    ensures var left := Drop(q, New(q, start, end)).Bytes();
      q.Bytes() == left[..start] + BI.Collect(New(q, start, end).queue.value) + left[start..]
  {
    var d := New(q, start, end);
    var left := Drop(q, d).Bytes();
    Partition(q.Bytes(), start, end, left, BI.Collect(d.queue.value));
  }

  lemma Partition(b: seq<byte>, start: nat, end: nat, left: seq<byte>, mid: seq<byte>)
    requires start <= end <= |b|
    requires left == b[..start] + b[end..] && mid == b[start..end]
    ensures b == left[..start] + mid + left[start..]
  {
    assert left[..start] == b[..start];
    assert left[start..] == b[end..];
    assert b == b[..start] + b[start..end] + b[end..];
  }

  /** Pushing a 4-byte chunk on the front and draining `0..5` removes it
      and the queue's first byte. */
  lemma PushFrontThenDrain(q: BQ.ByteQueue, t: B.ByteData)
    requires q.Valid() && BQ.Len(q) >= 1 && t.Valid() && t.Len() == 4
    ensures var q' := BQ.PushFront(q, t);
      && 5 <= BQ.Len(q')
      && Drop(q', New(q', 0, 5)).Bytes() == q.Bytes()[1..]
      && BQ.Len(Drop(q', New(q', 0, 5))) == BQ.Len(q) - 1
  {
    var q' := BQ.PushFront(q, t);
    assert q'.Bytes()[5..] == q.Bytes()[1..];
  }
}
