/** The fixed pool of memory/pool.h: a table of in-use flags. */
module Pool {
  import opened Common

  /** The least slot not below `i` that is not in use. */
  ghost function FirstFreeFrom(used: seq<bool>, i: nat): (r: Option<nat>)
    requires i <= |used|
    ensures r.None? ==> forall k :: i <= k < |used| ==> used[k]
    ensures r.Some? ==> i <= r.value < |used| && !used[r.value]
    ensures r.Some? ==> forall k :: i <= k < r.value ==> used[k]
    decreases |used| - i
  {
    if i == |used| then None else if !used[i] then Some(i) else FirstFreeFrom(used, i + 1)
  }

  ghost function FirstFree(used: seq<bool>): Option<nat>
  {
    FirstFreeFrom(used, 0)
  }

  /** hydra_pool_get: the new flags and the slot handed out, the first that is free. */
  ghost function Get(used: seq<bool>): (r: (seq<bool>, Option<nat>))
    ensures |r.0| == |used|
    ensures r.1.None? <==> forall k :: 0 <= k < |used| ==> used[k]
    ensures r.1.Some? ==> r.1.value < |used| && !used[r.1.value] && forall k :: 0 <= k < r.1.value ==> used[k]
    ensures forall k :: 0 <= k < |used| ==> r.0[k] == (used[k] || r.1 == Some(k))
  {
    match FirstFree(used)
    case None => (used, None)
    case Some(i) => (used[i := true], Some(i))
  }

  /** hydra_pool_free: slots outside the pool or not in use are ignored. */
  function Put(used: seq<bool>, i: nat): (r: seq<bool>)
    ensures |r| == |used|
    ensures forall k :: 0 <= k < |used| ==> r[k] == (used[k] && k != i)
  {
    if i >= |used| || !used[i] then used else used[i := false]
  }

  class HydraPool {
    const poolManager: array<bool>

    constructor (size: nat)
      ensures poolManager.Length == size && forall k :: 0 <= k < size ==> !poolManager[k]
      ensures fresh(poolManager)
    {
      poolManager := new bool[size](_ => false);
    }

    /** hydra_pool_get */
    method GetMember() returns (r: Option<nat>)
      modifies poolManager
      ensures (poolManager[..], r) == Get(old(poolManager[..]))
    {
      for i := 0 to poolManager.Length
        invariant poolManager[..] == old(poolManager[..])
        invariant FirstFreeFrom(poolManager[..], i) == FirstFree(poolManager[..])
      {
        if !poolManager[i] {
          poolManager[i] := true;
          return Some(i);
        }
      }
      return None;
    }

    /** hydra_pool_free */
    method FreeMember(i: nat)
      modifies poolManager
      ensures poolManager[..] == Put(old(poolManager[..]), i)
    {
      if i >= poolManager.Length || !poolManager[i] {
        return;
      }
      poolManager[i] := false;
    }

    /** hydra_pool_clean */
    method Clean()
      modifies poolManager
      ensures forall k :: 0 <= k < poolManager.Length ==> !poolManager[k]
    {
      for i := 0 to poolManager.Length
        invariant forall k :: 0 <= k < i ==> !poolManager[k]
      {
        poolManager[i] := false;
      }
    }
  }
}
