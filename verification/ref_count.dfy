/** The reference counts kept in the headers of shared allocations.
    Each allocation is named by its address; the map holds the current
    count of every live allocation. Counts are updated one operation at
    a time: atomic orderings and interleavings are not modelled. */
module RefCount {

  type Counts = map<nat, nat>

  /** The allocation at `id` exists and has at least one owner. */
  predicate Live(rc: Counts, id: nat) {
    id in rc && rc[id] >= 1
  }

  /** `fetch_add(1)` on the allocation's counter. */
  function Acquire(rc: Counts, id: nat): (r: Counts)
    requires Live(rc, id)
    ensures Live(r, id) && r[id] == rc[id] + 1
    ensures r.Keys == rc.Keys
    ensures forall other :: other in rc && other != id ==> r[other] == rc[other]
  {
    rc[id := rc[id] + 1]
  }

  /** The counts after a release, and whether the allocation was freed. */
  datatype Released = Released(counts: Counts, freed: bool)

  /** `fetch_sub(1)` on the counter; the owner that sees the previous
      value 1 frees the allocation, which then leaves the map. */
  function Release(rc: Counts, id: nat): (r: Released)
    requires Live(rc, id)
    ensures r.freed <==> rc[id] == 1
    ensures r.freed ==> id !in r.counts && r.counts.Keys == rc.Keys - {id}
    ensures !r.freed ==> Live(r.counts, id) && r.counts[id] == rc[id] - 1 && r.counts.Keys == rc.Keys
    ensures forall other :: other in rc && other != id ==> other in r.counts && r.counts[other] == rc[other]
  {
    if rc[id] == 1 then Released(rc - {id}, true)
    else Released(rc[id := rc[id] - 1], false)
  }

  /** A release undoes an acquire. */
  lemma AcquireRelease(rc: Counts, id: nat)
    requires Live(rc, id)
    ensures Release(Acquire(rc, id), id) == Released(rc, false)
  {
    assert Release(Acquire(rc, id), id).counts == rc;
  }
}
