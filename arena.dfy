/** The memtable's memory pool and the consumption its tracker reports. The pool
    only ever hands out memory; nothing is freed before the pool itself goes away. */
module Arena {

  /** Total bytes of a list of allocation sizes. */
  function Sum(sizes: seq<nat>): (total: nat)
  {
    if sizes == [] then 0 else sizes[0] + Sum(sizes[1..])
  }

  lemma {:induction false} SumAppend(a: seq<nat>, b: seq<nat>)
    ensures Sum(a + b) == Sum(a) + Sum(b)
    decreases |a|
  {
    if a == [] {
      assert a + b == b;
    } else {
      assert (a + b)[1..] == a[1..] + b;
      SumAppend(a[1..], b);
    }
  }

  /** A pool whose tracker counts every byte it has handed out. The allocation
      sizes are kept in order; consumption is their sum. */
  class MemPool {
    var allocations: seq<nat>

    constructor ()
      ensures allocations == []
    {
      allocations := [];
    }

    function Consumption(): (bytes: nat)
      reads this
    {
      Sum(allocations)
    }

    method Allocate(size: nat)
      modifies this
      ensures allocations == old(allocations) + [size]
      ensures Consumption() == old(Consumption()) + size
    {
      SumAppend(allocations, [size]);
      allocations := allocations + [size];
    }
  }
}
