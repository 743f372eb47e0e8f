/** `LinkedIter`: a borrowing iterator over the chunks of a root. It
    holds the pending chamber item, the current node with the rest of
    the chain behind it (here: the sequence of the nodes still to
    visit, current first), and the offset of the next item within the
    current node. */
module LinkedIter {
  import opened Wrappers
  import Ring
  import L = LinkedRoot
  import B = ByteData
  import S = StringData
  import opened Seqs

  datatype Iter = Iter(chamber: Option<B.ByteData>, nodes: seq<L.Node>, offset: nat) {
    /** The offset never passes the current node's items. */
    ghost predicate Valid() {
      && L.NodesOk(nodes)
      && (|nodes| > 0 ==> offset <= nodes[0].len)
    }

    /** The chunks still to be yielded, in order. */
    function Remaining(): seq<B.ByteData>
      requires Valid()
    {
      OptionPart(chamber)
        + (if |nodes| == 0 then [] else nodes[0].Items()[offset..] + L.NodesItems(nodes[1..]))
    }
  }

  function OptionPart(c: Option<B.ByteData>): seq<B.ByteData> {
    if c.Some? then [c.value] else []
  }

  /** `LinkedRoot::iter`: the chamber is pending only when occupied; the
      walk starts at the first node. */
  function New(r: L.Root): (it: Iter)
    requires r.Valid()
    ensures it.Valid() && it.Remaining() == r.Content()
  {
    Iter(if r.chamber.IsEmpty() then None else Some(r.chamber), r.nodes, 0)
  }

  /** The number of items in a node list, summed node by node. */
  function NodesLen(ns: seq<L.Node>): (n: nat)
    requires L.NodesOk(ns)
    ensures n == |L.NodesItems(ns)|
    decreases |ns|
  {
    if |ns| == 0 then 0 else ns[0].len + NodesLen(ns[1..])
  }

  /** `item_len`: what is left of the current node, plus the items of
      every later node, plus one for a pending chamber. */
  function ItemLen(it: Iter): (n: nat)
    requires it.Valid()
    ensures n == |it.Remaining()|
  {
    var rest := if |it.nodes| == 0 then 0 else it.nodes[0].len - it.offset + NodesLen(it.nodes[1..]);
    rest + (if it.chamber.Some? then 1 else 0)
  }

  /** `next`: the pending chamber first; then the slot at `offset` of the
      current node, read at `(beg + offset) % cap`; at the end of a node
      the walk moves to the next node at offset 0. `None` once nothing
      is left, and again on every later call. */
  function Next(it: Iter): (r: Option<(B.ByteData, Iter)>)
    requires it.Valid()
    ensures r.None? <==> it.Remaining() == []
    ensures r.Some? ==> (r.value.1.Valid()
      && it.Remaining() == [r.value.0] + r.value.1.Remaining())
  {
    if it.chamber.Some? then Some((it.chamber.value, Iter(None, it.nodes, it.offset)))
    else NextInNodes(it.nodes, it.offset)
  }

  /** The node walk of `next` with no chamber pending. */
  function NextInNodes(nodes: seq<L.Node>, offset: nat): (r: Option<(B.ByteData, Iter)>)
    requires Iter(None, nodes, offset).Valid()
    ensures r.None? <==> Iter(None, nodes, offset).Remaining() == []
    ensures r.Some? ==> (r.value.1.Valid() && r.value.1.chamber.None?
      && Iter(None, nodes, offset).Remaining() == [r.value.0] + r.value.1.Remaining())
    decreases |nodes|, 1
  {
    if |nodes| == 0 then None
    else if offset < nodes[0].len then Some(NextInNode(nodes, offset))
    else NextAfterNode(nodes)
  }

  /** The item at `offset` of the current node. */
  function NextInNode(nodes: seq<L.Node>, offset: nat): (r: (B.ByteData, Iter))
    requires Iter(None, nodes, offset).Valid() && |nodes| > 0 && offset < nodes[0].len
    ensures r.1.Valid() && r.1.chamber.None?
    ensures Iter(None, nodes, offset).Remaining() == [r.0] + r.1.Remaining()
  {
    var n := nodes[0];
    Ring.LiveSlot(n, offset);
    var x := n.slots[Ring.Slot(n.beg, offset, |n.slots|)].value;
    assert n.Items()[offset..] == [x] + n.Items()[offset + 1..];
    (x, Iter(None, nodes, offset + 1))
  }

  /** Past the end of a node the walk goes on in the next one. */
  function NextAfterNode(nodes: seq<L.Node>): (r: Option<(B.ByteData, Iter)>)
    requires |nodes| > 0 && Iter(None, nodes, nodes[0].len).Valid()
    ensures r.None? <==> Iter(None, nodes, nodes[0].len).Remaining() == []
    ensures r.Some? ==> (r.value.1.Valid() && r.value.1.chamber.None?
      && Iter(None, nodes, nodes[0].len).Remaining() == [r.value.0] + r.value.1.Remaining())
    decreases |nodes|, 0
  {
    AfterNode(nodes);
    NextInNodes(nodes[1..], 0)
  }

  /** The end of a node is the start of the next. */
  lemma AfterNode(nodes: seq<L.Node>)
    requires |nodes| > 0 && Iter(None, nodes, nodes[0].len).Valid()
    ensures Iter(None, nodes[1..], 0).Valid()
    ensures Iter(None, nodes, nodes[0].len).Remaining() == Iter(None, nodes[1..], 0).Remaining()
  {
    var rest := nodes[1..];
    assert nodes[0].Items()[nodes[0].len..] == [];
    if |rest| > 0 {
      assert rest[0].Items()[0..] == rest[0].Items();
    }
  }

  /** `skip_mut`: the pending chamber counts as the first item skipped;
      then whole stretches of the current node are skipped, moving to
      the next node at the end of each. Skips `min(n, remaining)`. */
  function SkipMut(it: Iter, n: nat): (it': Iter)
    requires it.Valid()
    ensures it'.Valid()
    ensures it'.Remaining() == it.Remaining()[Min(n, |it.Remaining()|)..]
  {
    if n == 0 then it
    else if it.chamber.Some? then SkipChamber(it, n)
    else SkipInNodes(it.nodes, it.offset, n)
  }

  /** The pending chamber is the first item skipped. */
  function SkipChamber(it: Iter, n: nat): (it': Iter)
    requires it.Valid() && it.chamber.Some? && n >= 1
    ensures it'.Valid()
    ensures it'.Remaining() == it.Remaining()[Min(n, |it.Remaining()|)..]
  {
    var it' := SkipInNodes(it.nodes, it.offset, n - 1);
    ChamberFirst(it);
    DropFirstThen(it.chamber.value, Iter(None, it.nodes, it.offset).Remaining(), n, it'.Remaining());
    it'
  }

  /** With a pending chamber, it is the first of the remaining items. */
  lemma ChamberFirst(it: Iter)
    requires it.Valid() && it.chamber.Some?
    ensures it.Remaining() == [it.chamber.value] + Iter(None, it.nodes, it.offset).Remaining()
  {
    var inNodes := if |it.nodes| == 0 then [] else it.nodes[0].Items()[it.offset..] + L.NodesItems(it.nodes[1..]);
    EmptyConcat(inNodes);
  }

  /** Skipping `n >= 1` of `[x] + rest` is skipping `n - 1` of `rest`. */
  lemma DropFirstThen<T>(x: T, rest: seq<T>, n: nat, tail: seq<T>)
    requires n >= 1 && tail == rest[Min(n - 1, |rest|)..]
    ensures tail == ([x] + rest)[Min(n, |rest| + 1)..]
  {
    assert ([x] + rest)[Min(n, |rest| + 1)..] == rest[Min(n - 1, |rest|)..];
  }

  function Min(a: nat, b: nat): nat {
    if a < b then a else b
  }

  /** The loop of `skip_mut_inner`. */
  function SkipInNodes(nodes: seq<L.Node>, offset: nat, n: nat): (it': Iter)
    requires Iter(None, nodes, offset).Valid()
    ensures it'.Valid() && it'.chamber.None?
    ensures var rem := Iter(None, nodes, offset).Remaining();
      it'.Remaining() == rem[Min(n, |rem|)..]
    decreases |nodes|, n, 1
  {
    if n == 0 || |nodes| == 0 then Iter(None, nodes, offset)
    else if offset == nodes[0].len then SkipToNextNode(nodes, n)
    else SkipInNode(nodes, offset, n)
  }

  /** At the end of a node the walk moves to the next one. */
  function SkipToNextNode(nodes: seq<L.Node>, n: nat): (it': Iter)
    requires |nodes| > 0 && Iter(None, nodes, nodes[0].len).Valid()
    ensures it'.Valid() && it'.chamber.None?
    ensures var rem := Iter(None, nodes, nodes[0].len).Remaining();
      it'.Remaining() == rem[Min(n, |rem|)..]
    decreases |nodes|, n, 0
  {
    AfterNode(nodes);
    SkipInNodes(nodes[1..], 0, n)
  }

  /** Within a node, as much as is left of it (at most `n`) is skipped. */
  function SkipInNode(nodes: seq<L.Node>, offset: nat, n: nat): (it': Iter)
    requires Iter(None, nodes, offset).Valid() && |nodes| > 0 && n > 0 && offset < nodes[0].len
    ensures it'.Valid() && it'.chamber.None?
    ensures var rem := Iter(None, nodes, offset).Remaining();
      it'.Remaining() == rem[Min(n, |rem|)..]
    decreases |nodes|, n, 0
  {
    var skip := Min(n, nodes[0].len - offset);
    SkipWithinNode(nodes, offset, skip);
    var it' := SkipInNodes(nodes, offset + skip, n - skip);
    SkipInTwo(Iter(None, nodes, offset).Remaining(), skip, n, it'.Remaining());
    it'
  }

  /** Skipping `skip` and then `n - skip` is skipping `n`. */
  lemma SkipInTwo<T>(rem: seq<T>, skip: nat, n: nat, tail: seq<T>)
    requires skip <= n && skip <= |rem|
    requires tail == rem[skip..][Min(n - skip, |rem| - skip)..]
    ensures tail == rem[Min(n, |rem|)..]
  {
    DropDrop(rem, skip, Min(n - skip, |rem| - skip));
  }

  /** Skipping within the current node drops that many items. */
  lemma SkipWithinNode(nodes: seq<L.Node>, offset: nat, skip: nat)
    requires Iter(None, nodes, offset).Valid() && |nodes| > 0
    requires offset + skip <= nodes[0].len
    ensures Iter(None, nodes, offset + skip).Valid()
    ensures |Iter(None, nodes, offset).Remaining()| >= skip
    ensures Iter(None, nodes, offset + skip).Remaining() == Iter(None, nodes, offset).Remaining()[skip..]
  {
    var items := nodes[0].Items();
    var tail := L.NodesItems(nodes[1..]);
    DropDrop(items, offset, skip);
    DropConcat(items[offset..], tail, skip);
  }

  /** `nth`: skip `n`, then `next`. */
  function Nth(it: Iter, n: nat): (r: Option<(B.ByteData, Iter)>)
    requires it.Valid()
    ensures r.None? <==> n >= |it.Remaining()|
    ensures r.Some? ==> (r.value.0 == it.Remaining()[n]
      && r.value.1.Valid() && r.value.1.Remaining() == it.Remaining()[n + 1..])
  {
    var it' := if n != 0 then SkipMut(it, n) else it;
    var rem := it.Remaining();
    assert it'.Remaining() == rem[Min(n, |rem|)..];
    match Next(it')
    case None => None
    case Some((x, it'')) =>
      SuffixCons(rem, Min(n, |rem|), x, it''.Remaining());
      Some((x, it''))
  }

  /** `last`: skip all but one, then `next`. */
  function Last(it: Iter): (r: Option<B.ByteData>)
    requires it.Valid()
    ensures r.None? <==> it.Remaining() == []
    ensures r.Some? ==> r.value == it.Remaining()[|it.Remaining()| - 1]
  {
    var len := ItemLen(it);
    if len == 0 then None
    else
      match Nth(it, len - 1)
      case Some((x, _)) => Some(x)
      case None => None
  }

  /* ---- LinkedStrIter ---- */

  /** `LinkedStrIter::next`: the same item, seen as `StringData`. */
  function StrNext(it: Iter): (r: Option<(S.StringData, Iter)>)
    requires it.Valid()
    ensures r.None? <==> it.Remaining() == []
    ensures r.Some? ==> (r.value.1.Valid()
      && it.Remaining() == [r.value.0.data] + r.value.1.Remaining())
  {
    match Next(it)
    case None => None
    case Some((x, it')) => Some((S.StringData(x), it'))
  }

  /** `LinkedStrIter::nth`. */
  function StrNth(it: Iter, n: nat): (r: Option<(S.StringData, Iter)>)
    requires it.Valid()
    ensures r.None? <==> n >= |it.Remaining()|
    ensures r.Some? ==> (r.value.0.data == it.Remaining()[n]
      && r.value.1.Valid() && r.value.1.Remaining() == it.Remaining()[n + 1..])
  {
    match Nth(it, n)
    case None => None
    case Some((x, it')) => Some((S.StringData(x), it'))
  }

  /** `LinkedStrIter::last`. */
  function StrLast(it: Iter): (r: Option<S.StringData>)
    requires it.Valid()
    ensures r.None? <==> it.Remaining() == []
    ensures r.Some? ==> r.value.data == it.Remaining()[|it.Remaining()| - 1]
  {
    match Last(it)
    case None => None
    case Some(x) => Some(S.StringData(x))
  }

  /** Walking the iterator with `next` to the end yields the root's
      content, in order. */
  function Collect(it: Iter): (r: seq<B.ByteData>)
    requires it.Valid()
    ensures r == it.Remaining()
    decreases |it.Remaining()|
  {
    match Next(it)
    case None => []
    case Some((x, it')) => [x] + Collect(it')
  }

}
