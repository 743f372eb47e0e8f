/** `LinkedRoot`: the chunk list behind `ByteQueue`. With the `alloc`
    feature it is a "chamber" slot for one chunk plus a doubly linked
    list of ring-buffer nodes; here the list is the sequence of its
    nodes, first to last. Without `alloc` it is a single node (the
    `Core` functions at the end). Empty chunks are never stored, and
    `count` is the number of stored chunks. */
module LinkedRoot {
  import opened Wrappers
  import Ring
  import B = ByteData
  import opened Seqs

  type Node = Ring.Ring<B.ByteData>

  /** A valid ring of the `alloc` capacity. */
  ghost predicate NodeOk(n: Node) {
    n.Valid() && n.Cap() == Ring.ALLOC_NODE_SIZE
  }

  ghost predicate NodesOk(ns: seq<Node>) {
    forall i :: 0 <= i < |ns| ==> NodeOk(ns[i])
  }

  /** The items of the nodes, node after node. */
  function NodesItems(ns: seq<Node>): seq<B.ByteData>
    requires NodesOk(ns)
    decreases |ns|
  {
    if |ns| == 0 then [] else ns[0].Items() + NodesItems(ns[1..])
  }

  /** The chamber as a list: itself unless it is empty. */
  function ChamberPart(c: B.ByteData): seq<B.ByteData> {
    if c.IsEmpty() then [] else [c]
  }

  predicate AllNonEmpty(cs: seq<B.ByteData>) {
    forall i :: 0 <= i < |cs| ==> !cs[i].IsEmpty()
  }

  lemma AllNonEmptyAppend(a: seq<B.ByteData>, b: seq<B.ByteData>)
    ensures AllNonEmpty(a + b) <==> AllNonEmpty(a) && AllNonEmpty(b)
  {
    if AllNonEmpty(a) && AllNonEmpty(b) {
      forall i | 0 <= i < |a + b|
        ensures !(a + b)[i].IsEmpty()
      {
        if i >= |a| {
          assert (a + b)[i] == b[i - |a|];
        }
      }
    }
    if AllNonEmpty(a + b) {
      forall i | 0 <= i < |a|
        ensures !a[i].IsEmpty()
      {
        assert (a + b)[i] == a[i];
      }
      forall i | 0 <= i < |b|
        ensures !b[i].IsEmpty()
      {
        assert (a + b)[|a| + i] == b[i];
      }
    }
  }

  datatype Root = Root(chamber: B.ByteData, nodes: seq<Node>, count: nat) {
    /** The stored chunks in queue order: the chamber first, when it is
        occupied, then the nodes' items. */
    function Content(): seq<B.ByteData>
      requires NodesOk(nodes)
    {
      ChamberPart(chamber) + NodesItems(nodes)
    }

    /** A node is released as soon as it empties while it has a
        neighbour, so only a lone node can be empty; no stored chunk is
        empty; `count` counts the stored chunks. */
    ghost predicate Valid() {
      && NodesOk(nodes)
      && (|nodes| >= 2 ==> forall i :: 0 <= i < |nodes| ==> nodes[i].len > 0)
      && AllNonEmpty(NodesItems(nodes))
      && count == |Content()|
    }

    /** `len`: the number of chunks. */
    function Len(): nat {
      count
    }
  }

  /* ---- Facts about the node list ---- */

  lemma {:induction false} NodesItemsAppend(a: seq<Node>, b: seq<Node>)
    requires NodesOk(a) && NodesOk(b)
    ensures NodesOk(a + b)
    ensures NodesItems(a + b) == NodesItems(a) + NodesItems(b)
    decreases |a|
  {
    if |a| == 0 {
      assert a + b == b;
    } else {
      assert (a + b)[1..] == a[1..] + b;
      NodesItemsAppend(a[1..], b);
    }
  }

  lemma NodesItemsSingle(n: Node)
    requires NodeOk(n)
    ensures NodesOk([n])
    ensures NodesItems([n]) == n.Items()
  {
    assert [n][1..] == [];
  }

  /** The list with its last node replaced. */
  lemma NodesItemsLast(ns: seq<Node>, n: Node)
    requires NodesOk(ns) && |ns| >= 1 && NodeOk(n)
    ensures NodesOk(ns[..|ns| - 1]) && NodesOk(ns[|ns| - 1 := n])
    ensures NodesItems(ns) == NodesItems(ns[..|ns| - 1]) + ns[|ns| - 1].Items()
    ensures NodesItems(ns[|ns| - 1 := n]) == NodesItems(ns[..|ns| - 1]) + n.Items()
  {
    var k := |ns| - 1;
    assert ns == ns[..k] + [ns[k]];
    assert ns[k := n] == ns[..k] + [n];
    NodesItemsAppend(ns[..k], [ns[k]]);
    NodesItemsAppend(ns[..k], [n]);
    NodesItemsSingle(ns[k]);
    NodesItemsSingle(n);
  }

  /** The list with its first node replaced. */
  lemma NodesItemsFirst(ns: seq<Node>, n: Node)
    requires NodesOk(ns) && |ns| >= 1 && NodeOk(n)
    ensures NodesOk(ns[1..]) && NodesOk(ns[0 := n])
    ensures NodesItems(ns[0 := n]) == n.Items() + NodesItems(ns[1..])
  {
    assert ns[0 := n][1..] == ns[1..];
  }

  /** Every chunk of a valid root is non-empty. */
  lemma ContentNonEmpty(r: Root)
    requires r.Valid()
    ensures AllNonEmpty(r.Content())
  {
    AllNonEmptyAppend(ChamberPart(r.chamber), NodesItems(r.nodes));
  }

  /** When the nodes hold anything, no node is empty. */
  lemma NodesNonEmpty(r: Root)
    requires r.Valid() && |NodesItems(r.nodes)| > 0
    ensures forall i :: 0 <= i < |r.nodes| ==> r.nodes[i].len > 0
  {
    if |r.nodes| == 1 {
      assert r.nodes[1..] == [];
    }
  }

  /* ---- Construction ---- */

  /** `new`: no chamber, no nodes. */
  function New(): (r: Root)
    ensures r.Valid() && r.Content() == []
  {
    Root(B.Empty(), [], 0)
  }

  /** `with_item`: the item in the chamber; `count` is 0 for an empty
      item. */
  function WithItem(d: B.ByteData): (r: Root)
    ensures r.Valid() && r.Content() == ChamberPart(d)
  {
    Root(d, [], if d.IsEmpty() then 0 else 1)
  }

  /* ---- Pushing ---- */

  /** `push_back_alloc`: a new node holding the item, linked last. */
  function PushBackAlloc(r: Root, d: B.ByteData): (r': Root)
    requires r.Valid() && !d.IsEmpty()
    requires forall i :: 0 <= i < |r.nodes| ==> r.nodes[i].len > 0
    ensures r'.Valid() && r'.chamber == r.chamber
    ensures r'.Content() == r.Content() + [d]
  {
    var n := Ring.WithItem(Ring.ALLOC_NODE_SIZE, d);
    NodesItemsAppend(r.nodes, [n]);
    NodesItemsSingle(n);
    AllNonEmptyAppend(NodesItems(r.nodes), [d]);
    ConcatAssoc(ChamberPart(r.chamber), NodesItems(r.nodes), [d]);
    Root(r.chamber, r.nodes + [n], r.count + 1)
  }

  /** `push_front_alloc`: a new node holding the item, linked first. */
  function PushFrontAlloc(r: Root, d: B.ByteData): (r': Root)
    requires r.Valid() && !d.IsEmpty()
    requires forall i :: 0 <= i < |r.nodes| ==> r.nodes[i].len > 0
    ensures r'.Valid() && r'.chamber == r.chamber
    ensures r'.Content() == ChamberPart(r.chamber) + [d] + NodesItems(r.nodes)
  {
    var n := Ring.WithItem(Ring.ALLOC_NODE_SIZE, d);
    NodesItemsAppend([n], r.nodes);
    NodesItemsSingle(n);
    AllNonEmptyAppend([d], NodesItems(r.nodes));
    ConcatAssoc(ChamberPart(r.chamber), [d], NodesItems(r.nodes));
    Root(r.chamber, [n] + r.nodes, r.count + 1)
  }

  /** `push_back`: an empty item is ignored; into an empty root the item
      goes to the chamber; otherwise onto the last node, or onto a new
      node when there is none or it is full. */
  function PushBack(r: Root, d: B.ByteData): (r': Root)
    requires r.Valid()
    ensures r'.Valid()
    ensures r'.Content() == r.Content() + ChamberPart(d)
    ensures r.count > 0 ==> r'.chamber == r.chamber
  {
    if d.IsEmpty() then r
    else if r.count == 0 then
      assert NodesItems(r.nodes) == [];
      Root(d, r.nodes, 1)
    else if |r.nodes| > 0 then
      var k := |r.nodes| - 1;
      match Ring.PushBack(r.nodes[k], d)
      case Success(n) =>
        PushIntoLast(r, n, d);
        Root(r.chamber, r.nodes[k := n], r.count + 1)
      case Failure(v) =>
        PushBackAlloc(r, v)
    else PushBackAlloc(r, d)
  }

  /** Pushing onto the last node appends the item to the content. */
  lemma PushIntoLast(r: Root, n: Node, d: B.ByteData)
    requires r.Valid() && |r.nodes| >= 1 && NodeOk(n) && !d.IsEmpty()
    requires n.Items() == r.nodes[|r.nodes| - 1].Items() + [d]
    ensures Root(r.chamber, r.nodes[|r.nodes| - 1 := n], r.count + 1).Valid()
    ensures Root(r.chamber, r.nodes[|r.nodes| - 1 := n], r.count + 1).Content() == r.Content() + [d]
  {
    var k := |r.nodes| - 1;
    NodesItemsLast(r.nodes, n);
    ConcatAssoc(NodesItems(r.nodes[..k]), r.nodes[k].Items(), [d]);
    assert NodesItems(r.nodes[k := n]) == NodesItems(r.nodes) + [d];
    AllNonEmptyAppend(NodesItems(r.nodes), [d]);
    ConcatAssoc(ChamberPart(r.chamber), NodesItems(r.nodes), [d]);
  }

  /** `push_front`: an empty item is ignored; otherwise the item takes
      the chamber, and the chamber's previous occupant, if any, goes to
      the front of the first node, or of a new node when there is none
      or it is full. */
  function PushFront(r: Root, d: B.ByteData): (r': Root)
    requires r.Valid()
    ensures r'.Valid()
    ensures r'.Content() == ChamberPart(d) + r.Content()
  {
    if d.IsEmpty() then r
    else
      var prev := r.chamber;
      if prev.IsEmpty() then Root(d, r.nodes, r.count + 1)
      else
        var swapped := Root(d, r.nodes, r.count);
        if |r.nodes| > 0 then
          match Ring.PushFront(r.nodes[0], prev)
          case Success(n) =>
            ChamberIntoFirst(r, n, d);
            Root(d, r.nodes[0 := n], r.count + 1)
          case Failure(v) =>
            PushFrontAlloc(swapped, v)
        else PushFrontAlloc(swapped, prev)
  }

  /* ---- Popping and peeking ---- */

  /** `pop_front`: the chamber when it is occupied, otherwise the first
      item of the first node, whose node is released if it empties and
      a next node exists. */
  function PopFront(r: Root): (res: Option<(B.ByteData, Root)>)
    requires r.Valid()
    ensures res.None? <==> r.Content() == []
    ensures res.Some? ==> (res.value.1.Valid()
      && r.Content() == [res.value.0] + res.value.1.Content())
  {
    if r.count == 0 then None
    else if !r.chamber.IsEmpty() then
      Some((r.chamber, Root(B.Empty(), r.nodes, r.count - 1)))
    else
      NodesNonEmpty(r);
      var (x, n) := Ring.PopFront(r.nodes[0]).value;
      PopFrontStep(r, x, n);
      Some((x, Root(r.chamber, DropFirst(r.nodes, n), r.count - 1)))
  }

  /** The node list after its first node has given up an item: the
      emptied node is released when a next node exists. */
  function DropFirst(ns: seq<Node>, n: Node): seq<Node>
    requires |ns| >= 1
  {
    if n.len == 0 && |ns| > 1 then ns[1..] else ns[0 := n]
  }

  lemma PopFrontStep(r: Root, x: B.ByteData, n: Node)
    requires r.Valid() && |r.nodes| >= 1 && NodeOk(n) && r.chamber.IsEmpty()
    requires r.nodes[0].Items() == [x] + n.Items()
    ensures r.count >= 1
    ensures Root(r.chamber, DropFirst(r.nodes, n), r.count - 1).Valid()
    ensures r.Content() == [x] + Root(r.chamber, DropFirst(r.nodes, n), r.count - 1).Content()
  {
    NodesItemsFirst(r.nodes, n);
    var nodes := DropFirst(r.nodes, n);
    var rest := NodesItems(r.nodes[1..]);
    if n.len == 0 && |r.nodes| > 1 {
      assert n.Items() == [];
    }
    assert NodesItems(nodes) == n.Items() + rest;
    ConcatAssoc([x], n.Items(), rest);
    assert NodesItems(r.nodes) == [x] + NodesItems(nodes);
    AllNonEmptyAppend([x], NodesItems(nodes));
    assert ChamberPart(r.chamber) == [];
  }

  /** `pop_back`: the chamber only when it is the sole item; otherwise
      the last item of the last node, whose node is released if it
      empties and a previous node exists. */
  function PopBack(r: Root): (res: Option<(B.ByteData, Root)>)
    requires r.Valid()
    ensures res.None? <==> r.Content() == []
    ensures res.Some? ==> (res.value.1.Valid()
      && r.Content() == res.value.1.Content() + [res.value.0])
  {
    if r.count == 1 && !r.chamber.IsEmpty() then
      Some((r.chamber, Root(B.Empty(), r.nodes, 0)))
    else if |r.nodes| == 0 then None
    else
      var k := |r.nodes| - 1;
      match Ring.PopBack(r.nodes[k])
      case None =>
        NodesItemsLast(r.nodes, r.nodes[k]);
        None
      case Some((x, n)) =>
        PopBackStep(r, x, n);
        Some((x, Root(r.chamber, DropLast(r.nodes, n), r.count - 1)))
  }

  /** The node list after its last node has given up an item: the
      emptied node is released when a previous node exists. */
  function DropLast(ns: seq<Node>, n: Node): seq<Node>
    requires |ns| >= 1
  {
    if n.len == 0 && |ns| > 1 then ns[..|ns| - 1] else ns[|ns| - 1 := n]
  }

  lemma PopBackStep(r: Root, x: B.ByteData, n: Node)
    requires r.Valid() && |r.nodes| >= 1 && NodeOk(n)
    requires r.nodes[|r.nodes| - 1].Items() == n.Items() + [x]
    ensures r.count >= 1
    ensures Root(r.chamber, DropLast(r.nodes, n), r.count - 1).Valid()
    ensures r.Content() == Root(r.chamber, DropLast(r.nodes, n), r.count - 1).Content() + [x]
  {
    var k := |r.nodes| - 1;
    NodesItemsLast(r.nodes, n);
    var nodes := DropLast(r.nodes, n);
    if n.len == 0 && |r.nodes| > 1 {
      assert n.Items() == [];
    }
    assert NodesItems(nodes) == NodesItems(r.nodes[..k]) + n.Items();
    assert NodesItems(r.nodes) == NodesItems(nodes) + [x];
    AllNonEmptyAppend(NodesItems(nodes), [x]);
  }

  /** `front`: the chamber when occupied, otherwise the first node's
      first item. */
  function Front(r: Root): (res: Option<B.ByteData>)
    requires r.Valid()
    ensures res.None? <==> r.Content() == []
    ensures res.Some? ==> res.value == r.Content()[0]
  {
    if r.count == 0 then None
    else if !r.chamber.IsEmpty() then Some(r.chamber)
    else
      NodesNonEmpty(r);
      Ring.Front(r.nodes[0])
  }

  /** `back`: the last node's last item, else the chamber when
      occupied. */
  function Back(r: Root): (res: Option<B.ByteData>)
    requires r.Valid()
    ensures res.None? <==> r.Content() == []
    ensures res.Some? ==> res.value == r.Content()[|r.Content()| - 1]
  {
    if |r.nodes| > 0 then
      var k := |r.nodes| - 1;
      NodesItemsLast(r.nodes, r.nodes[k]);
      match Ring.Back(r.nodes[k])
      case Some(x) => Some(x)
      case None => if !r.chamber.IsEmpty() then Some(r.chamber) else None
    else if !r.chamber.IsEmpty() then Some(r.chamber)
    else None
  }

  /* ---- Bulk operations ---- */

  /** The non-empty items of a list, in order. */
  function NonEmpty(ds: seq<B.ByteData>): (r: seq<B.ByteData>)
    ensures AllNonEmpty(r)
    decreases |ds|
  {
    if |ds| == 0 then [] else ChamberPart(ds[0]) + NonEmpty(ds[1..])
  }

  lemma {:induction false} NonEmptyOfNonEmpty(ds: seq<B.ByteData>)
    requires AllNonEmpty(ds)
    ensures NonEmpty(ds) == ds
    decreases |ds|
  {
    if |ds| > 0 {
      NonEmptyOfNonEmpty(ds[1..]);
      assert ds == [ds[0]] + ds[1..];
    }
  }

  /** `extend`: `push_back` of each item in turn. */
  function Extend(r: Root, ds: seq<B.ByteData>): (r': Root)
    requires r.Valid()
    ensures r'.Valid()
    ensures r'.Content() == r.Content() + NonEmpty(ds)
    decreases |ds|
  {
    if |ds| == 0 then r
    else
      var r1 := PushBack(r, ds[0]);
      var r' := Extend(r1, ds[1..]);
      assert r'.Content() == r.Content() + NonEmpty(ds) by {
        ConcatAssoc(r.Content(), ChamberPart(ds[0]), NonEmpty(ds[1..]));
      }
      r'
  }

  /** `clone`: a new root built from the cloned items in order. */
  function Clone(r: Root): (r': Root)
    requires r.Valid()
    ensures r'.Valid() && r'.Content() == r.Content()
  {
    NonEmptyOfNonEmpty(r.Content());
    Extend(New(), r.Content())
  }

  /** `append` as written: when `other`'s chamber is moved into its own
      first node, `other.count` is still decremented, so the result
      undercounts, and when that leaves `other.count` at 0 the moved
      item is dropped with `other`. */
  function AppendAsWritten(a: Root, b: Root): Root
    requires a.Valid() && b.Valid()
  {
    if b.count == 0 then a
    else if a.count == 0 then b
    else if a.count == 1 && !a.chamber.IsEmpty() then PushFront(b, a.chamber)
    else if !b.chamber.IsEmpty() then
      var c := b.chamber;
      var bc := b.count - 1;
      if |b.nodes| > 0 then
        match Ring.PushFront(b.nodes[0], c)
        case Success(n) =>
          if bc == 0 then a
          else Root(a.chamber, a.nodes + b.nodes[0 := n], a.count + bc)
        case Failure(v) =>
          var a1 := PushBack(a, v);
          if bc == 0 then a1
          else Root(a1.chamber, a1.nodes + b.nodes, a1.count + bc)
      else PushBack(a, c)
    else Root(a.chamber, a.nodes + b.nodes, a.count + b.count)
  }

  /** `append` with the count taken from `other` only when its chamber
      leaves it: the result holds `a`'s chunks, then `b`'s. */
  function Append(a: Root, b: Root): (r: Root)
    requires a.Valid() && b.Valid()
    ensures r.Valid()
    ensures r.Content() == a.Content() + b.Content()
    ensures r.count == a.count + b.count
  {
    if b.count == 0 then a
    else if a.count == 0 then b
    else if a.count == 1 && !a.chamber.IsEmpty() then PushFront(b, a.chamber)
    else
      assert |NodesItems(a.nodes)| > 0;
      if !b.chamber.IsEmpty() then MoveChamber(a, b) else Link(a, b)
  }

  /** The middle step of `append`: `b`'s chamber goes to the front of
      `b`'s first node, or, when there is none or it is full, to the
      back of `a`. */
  function MoveChamber(a: Root, b: Root): (r: Root)
    requires a.Valid() && b.Valid()
    requires |NodesItems(a.nodes)| > 0 && !b.chamber.IsEmpty()
    ensures r.Valid()
    ensures r.Content() == a.Content() + b.Content()
    ensures r.count == a.count + b.count
  {
    var c := b.chamber;
    if |b.nodes| > 0 then
      match Ring.PushFront(b.nodes[0], c)
      case Success(n) =>
        EmptyIntoFirst(b, n);
        Link(a, Root(B.Empty(), b.nodes[0 := n], b.count))
      case Failure(v) =>
        ChamberToBack(a, b);
        Link(PushBack(a, c), Root(B.Empty(), b.nodes, b.count - 1))
    else PushBack(a, c)
  }

  /** Moving `b`'s chamber to the back of `a` leaves two roots that
      `Link` accepts. */
  lemma ChamberToBack(a: Root, b: Root)
    requires a.Valid() && b.Valid()
    requires |NodesItems(a.nodes)| > 0 && !b.chamber.IsEmpty() && |b.nodes| >= 1
    ensures b.count >= 1
    ensures PushBack(a, b.chamber).Valid() && |NodesItems(PushBack(a, b.chamber).nodes)| > 0
    ensures Root(B.Empty(), b.nodes, b.count - 1).Valid()
    ensures a.Content() + b.Content() == PushBack(a, b.chamber).Content() + Root(B.Empty(), b.nodes, b.count - 1).Content()
    ensures a.count + b.count == PushBack(a, b.chamber).count + (b.count - 1)
  {
    var a1 := PushBack(a, b.chamber);
    assert a.count > 0;
    assert a1.Content() == ChamberPart(a.chamber) + (NodesItems(a.nodes) + [b.chamber]);
    assert b.count >= 1;
    var b1 := Root(B.Empty(), b.nodes, b.count - 1);
    assert b1.Content() == NodesItems(b.nodes);
    assert b.Content() == [b.chamber] + b1.Content();
    ConcatAssoc(a.Content(), [b.chamber], b1.Content());
  }

  /** `ChamberIntoFirst` with nothing put in the chamber's place. */
  lemma EmptyIntoFirst(b: Root, n: Node)
    requires b.Valid() && |b.nodes| >= 1 && NodeOk(n) && !b.chamber.IsEmpty()
    requires n.Items() == [b.chamber] + b.nodes[0].Items()
    ensures Root(B.Empty(), b.nodes[0 := n], b.count).Valid()
    ensures Root(B.Empty(), b.nodes[0 := n], b.count).Content() == b.Content()
    ensures b.count > 0
  {
    assert ChamberPart(B.Empty()) == [];
    ChamberIntoFirst(b, n, B.Empty());
  }

  /** Moving the chamber to the front of the first node, and putting
      `d` in its place, keeps the content behind `d`. */
  lemma ChamberIntoFirst(r: Root, n: Node, d: B.ByteData)
    requires r.Valid() && |r.nodes| >= 1 && NodeOk(n) && !r.chamber.IsEmpty()
    requires n.Items() == [r.chamber] + r.nodes[0].Items()
    ensures Root(d, r.nodes[0 := n], r.count + |ChamberPart(d)|).Valid()
    ensures Root(d, r.nodes[0 := n], r.count + |ChamberPart(d)|).Content() == ChamberPart(d) + r.Content()
  {
    NodesItemsFirst(r.nodes, n);
    var rest := NodesItems(r.nodes[1..]);
    ConcatAssoc([r.chamber], r.nodes[0].Items(), rest);
    assert NodesItems(r.nodes[0 := n]) == [r.chamber] + NodesItems(r.nodes);
    AllNonEmptyAppend([r.chamber], NodesItems(r.nodes));
  }

  /** The final step of `append`: `b`'s node list is linked after
      `a`'s. */
  function Link(a: Root, b: Root): (r: Root)
    requires a.Valid() && b.Valid()
    requires |NodesItems(a.nodes)| > 0 && b.count > 0 && b.chamber.IsEmpty()
    ensures r.Valid()
    ensures r.Content() == a.Content() + b.Content()
    ensures r.count == a.count + b.count
  {
    LinkOk(a, b);
    Root(a.chamber, a.nodes + b.nodes, a.count + b.count)
  }

  lemma LinkOk(a: Root, b: Root)
    requires a.Valid() && b.Valid()
    requires |NodesItems(a.nodes)| > 0 && b.count > 0 && b.chamber.IsEmpty()
    ensures Root(a.chamber, a.nodes + b.nodes, a.count + b.count).Valid()
    ensures Root(a.chamber, a.nodes + b.nodes, a.count + b.count).Content() == a.Content() + b.Content()
  {
    LinkContent(a, b);
    NodesNonEmpty(a);
    NodesNonEmpty(b);
    LinkNodes(a.nodes, b.nodes);
  }

  lemma LinkContent(a: Root, b: Root)
    requires NodesOk(a.nodes) && NodesOk(b.nodes) && b.chamber.IsEmpty()
    ensures NodesOk(a.nodes + b.nodes)
    ensures Root(a.chamber, a.nodes + b.nodes, a.count + b.count).Content() == a.Content() + b.Content()
  {
    NodesItemsAppend(a.nodes, b.nodes);
    ConcatAssoc(ChamberPart(a.chamber), NodesItems(a.nodes), NodesItems(b.nodes));
    assert ChamberPart(b.chamber) == [];
  }

  /** Two node lists with no empty node and no empty item link into one. */
  lemma LinkNodes(a: seq<Node>, b: seq<Node>)
    requires NodesOk(a) && NodesOk(b)
    requires forall i :: 0 <= i < |a| ==> a[i].len > 0
    requires forall i :: 0 <= i < |b| ==> b[i].len > 0
    requires AllNonEmpty(NodesItems(a)) && AllNonEmpty(NodesItems(b))
    ensures NodesOk(a + b)
    ensures forall i :: 0 <= i < |a + b| ==> (a + b)[i].len > 0
    ensures NodesItems(a + b) == NodesItems(a) + NodesItems(b)
    ensures AllNonEmpty(NodesItems(a + b))
  {
    NodesItemsAppend(a, b);
    AllPositive(a, b);
    AllNonEmptyAppend(NodesItems(a), NodesItems(b));
  }

  lemma AllPositive(a: seq<Node>, b: seq<Node>)
    requires forall i :: 0 <= i < |a| ==> a[i].len > 0
    requires forall i :: 0 <= i < |b| ==> b[i].len > 0
    ensures forall i :: 0 <= i < |a + b| ==> (a + b)[i].len > 0
  {
    forall i | 0 <= i < |a + b|
      ensures (a + b)[i].len > 0
    {
      if i >= |a| {
        assert (a + b)[i] == b[i - |a|];
      }
    }
  }

  /** Two chunks `x, y` in a root: `x` in the chamber and `y` in a node
      of its own. */
  lemma TwoChunks(x: B.ByteData, y: B.ByteData)
    requires !x.IsEmpty() && !y.IsEmpty()
    ensures PushBack(PushBack(New(), x), y) == Root(x, [Ring.WithItem(Ring.ALLOC_NODE_SIZE, y)], 2)
  {
  }

  /** The written `append` loses one from the count: appending
      `[z, w]` to `[x, y]` gives four chunks but a count of three. */
  lemma AppendAsWrittenUndercounts(x: B.ByteData, y: B.ByteData, z: B.ByteData, w: B.ByteData)
    requires !x.IsEmpty() && !y.IsEmpty() && !z.IsEmpty() && !w.IsEmpty()
    ensures var a := PushBack(PushBack(New(), x), y);
      var b := PushBack(PushBack(New(), z), w);
      var r := AppendAsWritten(a, b);
      NodesOk(r.nodes) && r.count == 3 && r.Content() == [x, y, z, w] && !r.Valid()
  {
    TwoChunks(x, y);
    TwoChunks(z, w);
    var a := PushBack(PushBack(New(), x), y);
    var b := PushBack(PushBack(New(), z), w);
    var ny := Ring.WithItem(Ring.ALLOC_NODE_SIZE, y);
    var nw := Ring.WithItem(Ring.ALLOC_NODE_SIZE, w);
    assert !nw.IsFull();
    var n := Ring.PushFront(nw, z).value;
    assert n.Items() == [z, w];
    var r := AppendAsWritten(a, b);
    assert r == Root(x, [ny, n], 3);
    NodesItemsSingle(n);
    NodesItemsAppend([ny], [n]);
    NodesItemsSingle(ny);
    assert [ny] + [n] == [ny, n];
  }

  /** The written `append` can drop a chunk: `b` holds `z` in its
      chamber and a node left empty by a `pop_back`; appending it to
      `[x, y]` returns `[x, y]`. */
  lemma AppendAsWrittenDropsChunk(x: B.ByteData, y: B.ByteData, z: B.ByteData, w: B.ByteData)
    requires !x.IsEmpty() && !y.IsEmpty() && !z.IsEmpty() && !w.IsEmpty()
    ensures var a := PushBack(PushBack(New(), x), y);
      var b := PopBack(PushBack(PushBack(New(), z), w)).value.1;
      b.Valid() && b.Content() == [z] && AppendAsWritten(a, b) == a
      && a.Content() == [x, y]
  {
    TwoChunks(x, y);
    TwoChunks(z, w);
    var b0 := PushBack(PushBack(New(), z), w);
    NodesItemsSingle(b0.nodes[0]);
    var a := PushBack(PushBack(New(), x), y);
    NodesItemsSingle(a.nodes[0]);
  }

  /* ---- Without `alloc`: the root is one node of 23 slots ---- */

  ghost predicate CoreValid(n: Node) {
    n.Valid() && n.Cap() == Ring.CORE_NODE_SIZE && AllNonEmpty(n.Items())
  }

  /** `push_back` without `alloc`: an empty item is ignored; pushing
      onto a full node panics. */
  function CorePushBack(n: Node, d: B.ByteData): (n': Node)
    requires CoreValid(n)
    requires d.IsEmpty() || !n.IsFull()
    ensures CoreValid(n') && n'.Items() == n.Items() + ChamberPart(d)
  {
    if d.IsEmpty() then n else Ring.PushBack(n, d).value
  }

  /** `push_front` without `alloc`: as `CorePushBack`, at the front. */
  function CorePushFront(n: Node, d: B.ByteData): (n': Node)
    requires CoreValid(n)
    requires d.IsEmpty() || !n.IsFull()
    ensures CoreValid(n') && n'.Items() == ChamberPart(d) + n.Items()
  {
    if d.IsEmpty() then n else Ring.PushFront(n, d).value
  }

  /** `ByteQueue::is_full` without `alloc`: the node holds 23 chunks,
      and exactly then a push of a non-empty chunk would panic. */
  function CoreIsFull(n: Node): (full: bool)
    requires CoreValid(n)
    ensures full <==> |n.Items()| == Ring.CORE_NODE_SIZE
    ensures full <==> n.IsFull()
  {
    n.len == |n.slots|
  }
}
