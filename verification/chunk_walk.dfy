/** Walks over a list of byte chunks that `ByteQueue` uses for search,
    equality and ordering. A cursor is the rest of the current chunk
    together with the chunks after it; the queue never stores an empty
    chunk, so an empty current chunk means the walk is over. */
module ChunkWalk {
  import opened Bytes
  import opened Seqs

  predicate NonEmptyParts(ss: seq<seq<byte>>) {
    forall i :: 0 <= i < |ss| ==> |ss[i]| > 0
  }

  /** A walk position: `cur` is empty only once `rest` is used up. */
  predicate Cursor(cur: seq<byte>, rest: seq<seq<byte>>) {
    (cur == [] ==> rest == []) && NonEmptyParts(rest)
  }

  /** The bytes a cursor has yet to see. */
  function Ahead(cur: seq<byte>, rest: seq<seq<byte>>): seq<byte> {
    cur + Flatten(rest)
  }

  /** `iter.next().unwrap_or_default()`: the next chunk, or the empty
      slice at the end. */
  function Pull(ss: seq<seq<byte>>): (seq<byte>, seq<seq<byte>>) {
    if |ss| == 0 then ([], []) else (ss[0], ss[1..])
  }

  /** The first cursor over a chunk list. */
  function Start(ss: seq<seq<byte>>): (c: (seq<byte>, seq<seq<byte>>))
    requires NonEmptyParts(ss)
    ensures Cursor(c.0, c.1) && Ahead(c.0, c.1) == Flatten(ss)
  {
    Pull(ss)
  }

  /** One step of the comparison loops: `l` bytes of the current chunk
      are consumed; a used-up chunk is replaced by the next one. */
  function Advance(cur: seq<byte>, rest: seq<seq<byte>>, l: nat): (c: (seq<byte>, seq<seq<byte>>))
    requires Cursor(cur, rest) && 0 < l <= |cur|
    ensures Cursor(c.0, c.1)
    ensures Ahead(cur, rest) == cur[..l] + Ahead(c.0, c.1)
    ensures |Ahead(c.0, c.1)| == |Ahead(cur, rest)| - l
  {
    if |cur| == l then
      assert cur[..l] == cur;
      if |rest| > 0 then
        assert Flatten(rest) == rest[0] + Flatten(rest[1..]);
        ConcatAssoc(cur, rest[0], Flatten(rest[1..]));
        Pull(rest)
      else
        Pull(rest)
    else
      assert cur == cur[..l] + cur[l..];
      ConcatAssoc(cur[..l], cur[l..], Flatten(rest));
      (cur[l..], rest)
  }

  function Min(a: nat, b: nat): nat {
    if a < b then a else b
  }

  /** Two sequences split at the same length are equal exactly when
      both halves are. */
  lemma SplitEq(p1: seq<byte>, r1: seq<byte>, p2: seq<byte>, r2: seq<byte>)
    requires |p1| == |p2|
    ensures p1 + r1 == p2 + r2 <==> p1 == p2 && r1 == r2
  {
    if p1 + r1 == p2 + r2 {
      assert p1 == (p1 + r1)[..|p1|];
      assert p2 == (p2 + r2)[..|p2|];
      assert r1 == (p1 + r1)[|p1|..];
      assert r2 == (p2 + r2)[|p2|..];
    }
  }

  /** Comparing two sequences split at the same length: the first halves
      decide unless they are equal, and then the second halves do. */
  lemma {:induction false} LexCmpSplit(p1: seq<byte>, r1: seq<byte>, p2: seq<byte>, r2: seq<byte>)
    requires |p1| == |p2|
    ensures LexCmp(p1 + r1, p2 + r2)
      == (if LexCmp(p1, p2) == Equal then LexCmp(r1, r2) else LexCmp(p1, p2))
    decreases |p1|
  {
    LexCmpEqualIff(p1, p2);
    if p1 == p2 {
      LexCmpCommonPrefix(p1, r1, r2);
    } else {
      LexCmpDiffer(p1, r1, p2, r2);
    }
  }

  /** Unequal first halves of the same length decide the comparison:
      past their common prefix both comparisons meet the same first
      differing byte. */
  lemma LexCmpDiffer(p1: seq<byte>, r1: seq<byte>, p2: seq<byte>, r2: seq<byte>)
    requires |p1| == |p2| && p1 != p2
    ensures LexCmp(p1 + r1, p2 + r2) == LexCmp(p1, p2)
  {
    var k := FirstDiff(p1, p2);
    var p := p1[..k];
    var u1, u2 := p1[k..], p2[k..];
    assert p1 == p + u1 && p2 == p + u2;
    ConcatAssoc(p, u1, r1);
    ConcatAssoc(p, u2, r2);
    LexCmpCommonPrefix(p, u1 + r1, u2 + r2);
    LexCmpCommonPrefix(p, u1, u2);
    assert (u1 + r1)[0] == u1[0] && (u2 + r2)[0] == u2[0];
  }

  /** The first position where two sequences of the same length differ. */
  lemma {:induction false} FirstDiff(p1: seq<byte>, p2: seq<byte>) returns (k: nat)
    requires |p1| == |p2| && p1 != p2
    ensures k < |p1| && p1[..k] == p2[..k] && p1[k] != p2[k]
    decreases |p1|
  {
    if p1[0] != p2[0] {
      k := 0;
    } else {
      assert p1 == [p1[0]] + p1[1..] && p2 == [p2[0]] + p2[1..];
      var j := FirstDiff(p1[1..], p2[1..]);
      k := j + 1;
      assert p1[..k] == [p1[0]] + p1[1..][..j];
      assert p2[..k] == [p2[0]] + p2[1..][..j];
    }
  }

  /** The equality loop of `PartialEq` for `ByteQueue`: compare the
      common length of the two current chunks, then advance both. The
      same loop compares a queue with a plain slice, as a cursor with no
      further chunks. */
  function EqWalk(a: seq<byte>, as_: seq<seq<byte>>, b: seq<byte>, bs: seq<seq<byte>>): (r: bool)
    requires Cursor(a, as_) && Cursor(b, bs)
    ensures r <==> Ahead(a, as_) == Ahead(b, bs)
    decreases |Ahead(a, as_)|
  {
    if a == [] && b == [] then true
    else if a == [] || b == [] then false
    else
      var l := Min(|a|, |b|);
      var na := Advance(a, as_, l);
      var nb := Advance(b, bs, l);
      SplitEq(a[..l], Ahead(na.0, na.1), b[..l], Ahead(nb.0, nb.1));
      if a[..l] == b[..l] then EqWalk(na.0, na.1, nb.0, nb.1) else false
  }

  /** The loop of `Ord::cmp` for `ByteQueue`: as `EqWalk`, returning the
      first unequal comparison of two windows; an exhausted side is
      the smaller. */
  function CmpWalk(a: seq<byte>, as_: seq<seq<byte>>, b: seq<byte>, bs: seq<seq<byte>>): (r: Ordering)
    requires Cursor(a, as_) && Cursor(b, bs)
    ensures r == LexCmp(Ahead(a, as_), Ahead(b, bs))
    decreases |Ahead(a, as_)|
  {
    if a == [] && b == [] then Equal
    else if a == [] then Less
    else if b == [] then Greater
    else
      var l := Min(|a|, |b|);
      var na := Advance(a, as_, l);
      var nb := Advance(b, bs, l);
      LexCmpSplit(a[..l], Ahead(na.0, na.1), b[..l], Ahead(nb.0, nb.1));
      match LexCmp(a[..l], b[..l])
      case Equal => CmpWalk(na.0, na.1, nb.0, nb.1)
      case x => x
  }

  /** `data` sits at `index` of `f`. */
  predicate At(f: seq<byte>, index: nat, data: seq<byte>) {
    index + |data| <= |f| && f[index..index + |data|] == data
  }

  /** `exists_at`: skip whole chunks before `index`; then compare the
      chunk's tail with the head of `data`, moving to the next chunk
      with the rest of `data` when the chunk ends first. */
  function ExistsAt(ss: seq<seq<byte>>, index: nat, data: seq<byte>): (r: bool)
    ensures r <==> At(Flatten(ss), index, data)
    decreases |ss|
  {
    if |ss| == 0 then index == 0 && data == []
    else
      var s := ss[0];
      var l := |s|;
      var tail := Flatten(ss[1..]);
      assert Flatten(ss) == s + tail;
      if index >= l then
        AtSecond(s, tail, index, data);
        ExistsAt(ss[1..], index - l, data)
      else if l - index >= |data| then
        WindowInFirst(s, tail, index, index + |data|);
        s[index..index + |data|] == data
      else
        AtAcross(s, tail, index, data);
        if s[index..] != data[..l - index] then false
        else ExistsAt(ss[1..], 0, data[l - index..])
  }

  lemma AtSecond(s: seq<byte>, tail: seq<byte>, index: nat, data: seq<byte>)
    requires |s| <= index
    ensures At(s + tail, index, data) <==> At(tail, index - |s|, data)
  {
    if index + |data| <= |s + tail| {
      WindowInSecond(s, tail, index, index + |data|);
    }
  }

  lemma AtAcross(s: seq<byte>, tail: seq<byte>, index: nat, data: seq<byte>)
    requires index < |s| < index + |data|
    ensures At(s + tail, index, data)
      <==> s[index..] == data[..|s| - index] && At(tail, 0, data[|s| - index..])
  {
    var k := |s| - index;
    var rest := data[k..];
    assert data == data[..k] + rest;
    if index + |data| <= |s + tail| {
      WindowAcross(s, tail, index, index + |data|);
      SplitEq(s[index..], tail[..|rest|], data[..k], rest);
    }
  }
}
