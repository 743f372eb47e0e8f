/** `LinkedNodeData`: a fixed-capacity ring buffer of items. The slots
    form a circular array; `beg` is the slot of the first live item and
    `len` the number of live items, which sit at `beg, beg+1, ...`
    modulo the capacity. An uninitialised slot is `None`. */
module Ring {
  import opened Wrappers

  /** The capacity with the `alloc` feature. */
  const ALLOC_NODE_SIZE: nat := 15
  /** The capacity without it: the root is a single node. */
  const CORE_NODE_SIZE: nat := 23

  /** The slot holding item `i`, i.e. `(beg + i) % cap` for `beg, i < cap`. */
  function Slot(beg: nat, i: nat, cap: nat): nat {
    if beg + i < cap then beg + i else beg + i - cap
  }

  /** The item position held by slot `k`: the inverse of `Slot`. */
  function Offset(beg: nat, k: nat, cap: nat): nat
    requires beg <= cap
  {
    if k >= beg then k - beg else k + cap - beg
  }

  /** Stepping forward one slot wraps from the last slot to 0. */
  lemma NextSlot(b: nat, cap: nat)
    requires b < cap
    ensures (b + 1) % cap == (if b + 1 == cap then 0 else b + 1)
  {
  }

  /** Stepping back one slot, written `(b + cap - 1) % cap`, wraps from
      0 to the last slot. */
  lemma PrevSlot(b: nat, cap: nat)
    requires b < cap
    ensures (b + cap - 1) % cap == (if b == 0 then cap - 1 else b - 1)
  {
    if b > 0 {
      assert b + cap - 1 == cap + (b - 1);
    }
  }

  datatype Ring<T> = Ring(slots: seq<Option<T>>, beg: nat, len: nat) {
    function Cap(): nat {
      |slots|
    }

    /** A slot is initialised exactly when it holds a live item. */
    ghost predicate Valid() {
      && |slots| >= 1
      && beg < |slots|
      && len <= |slots|
      && (forall k :: 0 <= k < |slots| ==> (slots[k].Some? <==> Offset(beg, k, |slots|) < len))
    }

    predicate IsFull() {
      len >= |slots|
    }

    /** The live items, first to last. */
    function Items(): (s: seq<T>)
      requires Valid()
      ensures |s| == len
    {
      seq(len, i requires 0 <= i < len => LiveSlot(this, i); slots[Slot(beg, i, |slots|)].value)
    }
  }

  lemma LiveSlot<T>(r: Ring<T>, i: nat)
    requires r.Valid() && i < r.len
    ensures Slot(r.beg, i, |r.slots|) < |r.slots|
    ensures r.slots[Slot(r.beg, i, |r.slots|)].Some?
  {
    var k := Slot(r.beg, i, |r.slots|);
    assert Offset(r.beg, k, |r.slots|) == i;
  }

  /** An empty node (the no-`alloc` `new`). */
  function New<T>(cap: nat): (r: Ring<T>)
    requires cap >= 1
    ensures r.Valid() && r.Cap() == cap && r.Items() == []
  {
    Ring(seq(cap, k => None), 0, 0)
  }

  /** `with_item`: the item in slot 0, `beg` 0, `len` 1. */
  function WithItem<T>(cap: nat, x: T): (r: Ring<T>)
    requires cap >= 1
    ensures r.Valid() && r.Cap() == cap && r.Items() == [x]
    ensures r.beg == 0 && r.len == 1
  {
    Ring(seq(cap, k => if k == 0 then Some(x) else None), 0, 1)
  }

  /** `push_back`: fails with the item when full, otherwise writes it
      just past the last live slot. */
  function PushBack<T>(r: Ring<T>, x: T): (res: Result<Ring<T>, T>)
    requires r.Valid()
    ensures res.Failure? <==> r.IsFull()
    ensures res.Failure? ==> res.error == x
    ensures res.Success? ==> (res.value.Valid() && res.value.Cap() == r.Cap()
      && res.value.Items() == r.Items() + [x])
  {
    if r.len >= |r.slots| then Failure(x)
    else
      var cap := |r.slots|;
      var k := Slot(r.beg, r.len, cap);
      var r' := Ring(r.slots[k := Some(x)], r.beg, r.len + 1);
      assert r'.Valid() by {
        forall j | 0 <= j < cap
          ensures r'.slots[j].Some? <==> Offset(r.beg, j, cap) < r.len + 1
        {
          if j == k {
            assert Offset(r.beg, j, cap) == r.len;
          }
        }
      }
      assert r'.Items() == r.Items() + [x] by {
        forall i | 0 <= i < r.len
          ensures r'.Items()[i] == r.Items()[i]
        {
          LiveSlot(r, i);
        }
      }
      Success(r')
  }

  /** `push_front`: fails with the item when full, otherwise writes it in
      the slot before `beg`, which becomes the new `beg`. */
  function PushFront<T>(r: Ring<T>, x: T): (res: Result<Ring<T>, T>)
    requires r.Valid()
    ensures res.Failure? <==> r.IsFull()
    ensures res.Failure? ==> res.error == x
    ensures res.Success? ==> (res.value.Valid() && res.value.Cap() == r.Cap()
      && res.value.Items() == [x] + r.Items()
      && res.value.beg == (r.beg + r.Cap() - 1) % r.Cap())
  {
    if r.len >= |r.slots| then Failure(x)
    else
      var cap := |r.slots|;
      var k := (r.beg + cap - 1) % cap;
      PrevSlot(r.beg, cap);
      var r' := Ring(r.slots[k := Some(x)], k, r.len + 1);
      assert r'.Valid() by {
        forall j | 0 <= j < cap
          ensures r'.slots[j].Some? <==> Offset(k, j, cap) < r.len + 1
        {
          if j != k {
            assert Offset(k, j, cap) == Offset(r.beg, j, cap) + 1;
          } else {
            assert Offset(k, j, cap) == 0;
          }
        }
      }
      assert r'.Items() == [x] + r.Items() by {
        forall i | 1 <= i < r.len + 1
          ensures r'.Items()[i] == r.Items()[i - 1]
        {
          LiveSlot(r, i - 1);
          assert Slot(k, i, cap) == Slot(r.beg, i - 1, cap);
        }
      }
      Success(r')
  }

  /** `pop_back`: `None` when empty, otherwise the last item, whose slot
      becomes uninitialised. */
  function PopBack<T>(r: Ring<T>): (res: Option<(T, Ring<T>)>)
    requires r.Valid()
    ensures res.None? <==> r.len == 0
    ensures res.Some? ==> var (x, r') := res.value;
      r'.Valid() && r'.Cap() == r.Cap() && r'.beg == r.beg
      && r.Items() == r'.Items() + [x]
  {
    if r.len == 0 then None
    else
      var cap := |r.slots|;
      var k := Slot(r.beg, r.len - 1, cap);
      LiveSlot(r, r.len - 1);
      var r' := Ring(r.slots[k := None], r.beg, r.len - 1);
      assert r'.Valid() by {
        forall j | 0 <= j < cap
          ensures r'.slots[j].Some? <==> Offset(r.beg, j, cap) < r.len - 1
        {
          if j == k {
            assert Offset(r.beg, j, cap) == r.len - 1;
          }
        }
      }
      assert r.Items() == r'.Items() + [r.slots[k].value] by {
        forall i | 0 <= i < r.len - 1
          ensures r'.Items()[i] == r.Items()[i]
        {
          LiveSlot(r, i);
        }
      }
      Some((r.slots[k].value, r'))
  }

  /** `pop_front`: `None` when empty, otherwise the first item; `beg`
      moves to the next slot. */
  function PopFront<T>(r: Ring<T>): (res: Option<(T, Ring<T>)>)
    requires r.Valid()
    ensures res.None? <==> r.len == 0
    ensures res.Some? ==> var (x, r') := res.value;
      r'.Valid() && r'.Cap() == r.Cap() && r'.beg == (r.beg + 1) % r.Cap()
      && r.Items() == [x] + r'.Items()
  {
    if r.len == 0 then None
    else
      var cap := |r.slots|;
      var b := (r.beg + 1) % cap;
      NextSlot(r.beg, cap);
      LiveSlot(r, 0);
      var r' := Ring(r.slots[r.beg := None], b, r.len - 1);
      assert r'.Valid() by {
        forall j | 0 <= j < cap
          ensures r'.slots[j].Some? <==> Offset(b, j, cap) < r.len - 1
        {
          if j != r.beg {
            assert Offset(b, j, cap) + 1 == Offset(r.beg, j, cap);
          }
        }
      }
      assert r.Items() == [r.slots[r.beg].value] + r'.Items() by {
        forall i | 0 <= i < r.len - 1
          ensures r'.Items()[i] == r.Items()[i + 1]
        {
          LiveSlot(r, i + 1);
          assert Slot(b, i, cap) == Slot(r.beg, i + 1, cap);
        }
      }
      Some((r.slots[r.beg].value, r'))
  }

  /** `front`: the first item, read at `beg`. */
  function Front<T>(r: Ring<T>): (res: Option<T>)
    requires r.Valid()
    ensures res.None? <==> r.len == 0
    ensures res.Some? ==> res.value == r.Items()[0]
  {
    if r.len == 0 then None
    else
      LiveSlot(r, 0);
      Some(r.slots[r.beg].value)
  }

  /** `back`: the last item, read at `(beg + len - 1) % cap`. */
  function Back<T>(r: Ring<T>): (res: Option<T>)
    requires r.Valid()
    ensures res.None? <==> r.len == 0
    ensures res.Some? ==> res.value == r.Items()[r.len - 1]
  {
    if r.len == 0 then None
    else
      var k := Slot(r.beg, r.len - 1, |r.slots|);
      LiveSlot(r, r.len - 1);
      Some(r.slots[k].value)
  }

  /** `Drop`: walks `len` slots from `beg`, wrapping at the capacity,
      and returns the slots it releases in order. They are exactly the
      initialised slots, each released once. */
  method Drop<T>(r: Ring<T>) returns (released: seq<nat>)
    requires r.Valid()
    ensures |released| == r.len
    ensures forall i :: 0 <= i < |released| ==> released[i] < r.Cap() && r.slots[released[i]].Some? && r.slots[released[i]].value == r.Items()[i]
    ensures forall k :: 0 <= k < r.Cap() ==> (r.slots[k].Some? <==> k in released)
    ensures forall i, j :: 0 <= i < j < |released| ==> released[i] != released[j]
  {
    var cap := |r.slots|;
    var b := r.beg;
    released := [];
    var n := 0;
    while n < r.len
      invariant 0 <= n <= r.len
      invariant b == Slot(r.beg, n, cap) && b < cap
      invariant |released| == n
      invariant forall i :: 0 <= i < n ==> released[i] == Slot(r.beg, i, cap)
    {
      released := released + [b];
      NextSlot(b, cap);
      b := (b + 1) % cap;
      n := n + 1;
    }
    forall i | 0 <= i < |released|
      ensures released[i] < cap && r.slots[released[i]].Some? && r.slots[released[i]].value == r.Items()[i]
    {
      LiveSlot(r, i);
    }
    forall k | 0 <= k < cap
      ensures r.slots[k].Some? <==> k in released
    {
      if r.slots[k].Some? {
        assert released[Offset(r.beg, k, cap)] == k;
      }
    }
  }
}
