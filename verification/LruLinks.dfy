/** Linking entries into the LRU list and unlinking them, wherever the pool pointers stand.

    SetCapacity does not trim the pools, and LRU_Insert trims them while its new low entry is still past
    the low pointer. So the pools may come apart. Here every list operation is a function of any list at
    all, and one of its outcomes is that an assertion of the source fails. */
module LruLinks {
  import opened LruPools

  datatype Outcome = Done(pools: Pools) | AssertionFails

  /** The branch that LRU_Insert takes. */
  datatype Branch = ToHigh | ToLow | ToBottom

  /** LRU_Remove with its assertions. */
  function Unlink(p: Pools, k: nat): Outcome
    requires k < |p.list|
  {
    var e := p.list[k];
    if p.usage < e.charge || (e.inHigh && e.inLow) || (e.inHigh && p.high < e.charge) ||
       (!e.inHigh && e.inLow && p.lowUsage < e.charge) then AssertionFails
    else Done(RemoveAt(p, k))
  }

  /** The first loop of MaintainPoolSize. */
  function TrimHigh(p: Pools, cap: real): Outcome
    requires p.low <= |p.list|
    decreases |p.list| - p.low
  {
    if p.high as real <= cap then Done(p)
    else if p.low == |p.list| || p.high < p.list[p.low].charge then AssertionFails
    else TrimHigh(HighToLow(p), cap)
  }

  /** The second loop. */
  function TrimLow(p: Pools, cap: real): Outcome
    requires p.bottom <= |p.list|
    decreases |p.list| - p.bottom
  {
    if p.lowUsage as real <= cap then Done(p)
    else if p.bottom == |p.list| || p.lowUsage < p.list[p.bottom].charge then AssertionFails
    else TrimLow(LowToBottom(p), cap)
  }

  /** MaintainPoolSize. */
  function Maintain(p: Pools, highCap: real, lowCap: real): Outcome
    requires Ranged(p)
  {
    match TrimHigh(p, highCap)
    case AssertionFails => AssertionFails
    case Done(q) =>
      TrimHighKeeps(p, highCap);
      TrimLow(q, lowCap)
  }

  /** Where LRU_Insert links an entry. */
  function LinkPosition(p: Pools, to: Branch): nat {
    match to
    case ToHigh => |p.list|
    case ToLow => p.low
    case ToBottom => p.bottom
  }

  /** LRU_Insert: the low branch moves the low pointer to the new entry only after trimming. */
  function Link(p: Pools, to: Branch, id: nat, charge: nat, highCap: real, lowCap: real): Outcome
    requires Ranged(p)
  {
    match to
    case ToHigh =>
      AddHighIsRanged(p, id, charge);
      Maintain(AddHigh(p, id, charge), highCap, lowCap)
    case ToLow =>
      AddLowIsRanged(p, id, charge);
      (match Maintain(AddLow(p, id, charge), highCap, lowCap)
       case AssertionFails => AssertionFails
       case Done(q) => Done(q.(low := p.low + 1)))
    case ToBottom => Done(AddBottom(p, id, charge))
  }

  // ----- what every outcome keeps

  lemma UnlinkKeeps(p: Pools, k: nat)
    requires Ranged(p) && k < |p.list|
    ensures Unlink(p, k).Done? ==> Ranged(Unlink(p, k).pools)
  {
    SumRemoved(p.list, k, 0, |p.list|);
  }

  lemma HighToLowIsRanged(p: Pools)
    requires Ranged(p) && p.low < |p.list| && p.high >= p.list[p.low].charge
    ensures Ranged(HighToLow(p)) && SameItems(p.list, HighToLow(p).list)
  {
    SameItemsSum(p.list, HighToLow(p).list, 0, |p.list|);
  }

  lemma LowToBottomIsRanged(p: Pools)
    requires Ranged(p) && p.bottom < |p.list| && p.lowUsage >= p.list[p.bottom].charge
    ensures Ranged(LowToBottom(p)) && SameItems(p.list, LowToBottom(p).list)
  {
    SameItemsSum(p.list, LowToBottom(p).list, 0, |p.list|);
  }

  lemma {:induction false} TrimHighKeeps(p: Pools, cap: real)
    requires Ranged(p)
    ensures var r := TrimHigh(p, cap);
      r.Done? ==> Ranged(r.pools) && SameItems(p.list, r.pools.list) && r.pools.high as real <= cap
    decreases |p.list| - p.low
  {
    if p.high as real > cap && p.low < |p.list| && p.high >= p.list[p.low].charge {
      HighToLowIsRanged(p);
      TrimHighKeeps(HighToLow(p), cap);
    }
  }

  lemma {:induction false} TrimLowKeeps(p: Pools, cap: real)
    requires Ranged(p)
    ensures var r := TrimLow(p, cap);
      r.Done? ==> Ranged(r.pools) && SameItems(p.list, r.pools.list) && r.pools.lowUsage as real <= cap &&
                  r.pools.high == p.high && r.pools.low == p.low
    decreases |p.list| - p.bottom
  {
    if p.lowUsage as real > cap && p.bottom < |p.list| && p.lowUsage >= p.list[p.bottom].charge {
      LowToBottomIsRanged(p);
      TrimLowKeeps(LowToBottom(p), cap);
    }
  }

  /** Trimming changes flags only, and both pools are then within their caps by the counters. */
  lemma MaintainKeeps(p: Pools, highCap: real, lowCap: real)
    requires Ranged(p)
    ensures var r := Maintain(p, highCap, lowCap);
      r.Done? ==> Ranged(r.pools) && SameItems(p.list, r.pools.list) && Within(r.pools, highCap, lowCap)
  {
    TrimHighKeeps(p, highCap);
    if TrimHigh(p, highCap).Done? {
      TrimLowKeeps(TrimHigh(p, highCap).pools, lowCap);
    }
  }

  lemma AddHighIsRanged(p: Pools, id: nat, charge: nat)
    requires Ranged(p)
    ensures Ranged(AddHigh(p, id, charge))
  {
    SumAcrossInsert(p.list, |p.list|, Item(id, charge, true, false), 0, |p.list|);
  }

  lemma AddLowIsRanged(p: Pools, id: nat, charge: nat)
    requires Ranged(p)
    ensures Ranged(AddLow(p, id, charge))
  {
    SumAcrossInsert(p.list, p.low, Item(id, charge, false, true), 0, |p.list|);
  }

  lemma AddBottomIsRanged(p: Pools, id: nat, charge: nat)
    requires Ranged(p)
    ensures Ranged(AddBottom(p, id, charge))
  {
    SumAcrossInsert(p.list, p.bottom, Item(id, charge, false, false), 0, |p.list|);
  }

  /** Whatever the pools, a link that meets no failing assertion adds exactly the one entry at its place. */
  lemma LinkKeeps(p: Pools, to: Branch, id: nat, charge: nat, highCap: real, lowCap: real)
    requires Ranged(p)
    ensures LinkPosition(p, to) <= |p.list|
    ensures var r := Link(p, to, id, charge, highCap, lowCap);
      r.Done? ==> Ranged(r.pools) &&
                  SameItems(r.pools.list, Inserted(p.list, LinkPosition(p, to), Item(id, charge, false, false)))
  {
    match to
    case ToHigh =>
      AddHighIsRanged(p, id, charge);
      MaintainKeeps(AddHigh(p, id, charge), highCap, lowCap);
    case ToLow =>
      AddLowIsRanged(p, id, charge);
      MaintainKeeps(AddLow(p, id, charge), highCap, lowCap);
    case ToBottom =>
      AddBottomIsRanged(p, id, charge);
  }

  // ----- pools in order

  /** From pools in order, unlinking meets no failing assertion and leaves them in order. */
  lemma UnlinkKeepsPools(p: Pools, k: nat)
    requires Segmented(p) && k < |p.list|
    ensures Unlink(p, k) == Done(RemoveAt(p, k)) && Segmented(RemoveAt(p, k))
    ensures RemoveAt(p, k).high <= p.high && RemoveAt(p, k).lowUsage <= p.lowUsage
  {
    RemoveKeepsSegments(p, k);
    SumRemoved(p.list, k, 0, |p.list|);
    SumRemoved(p.list, k, p.low, |p.list|);
    SumRemoved(p.list, k, p.bottom, p.low);
  }

  lemma {:induction false} TrimHighKeepsPools(p: Pools, cap: real)
    requires Segmented(p) && cap >= 0.0
    ensures TrimHigh(p, cap).Done? && Segmented(TrimHigh(p, cap).pools)
    decreases |p.list| - p.low
  {
    if p.high as real > cap {
      SumOne(p.list, p.low, |p.list|);
      HighToLowKeepsSegments(p);
      TrimHighKeepsPools(HighToLow(p), cap);
    }
  }

  lemma {:induction false} TrimLowKeepsPools(p: Pools, mid: nat, cap: real)
    requires SegmentedAt(p, mid) && cap >= 0.0
    ensures TrimLow(p, cap).Done? && SegmentedAt(TrimLow(p, cap).pools, mid)
    decreases |p.list| - p.bottom
  {
    if p.lowUsage as real > cap {
      SumOne(p.list, p.bottom, mid);
      LowToBottomKeepsSegments(p, mid);
      TrimLowKeepsPools(LowToBottom(p), mid, cap);
    }
  }

  /** No more entries leave the high pool than must. */
  lemma {:induction false} TrimHighIsMinimal(p: Pools, cap: real, m: nat)
    requires Segmented(p) && cap >= 0.0 && TrimHigh(p, cap).Done? && p.low <= m < TrimHigh(p, cap).pools.low
    ensures m < |p.list| && Sum(p.list, m, |p.list|) as real > cap
    decreases |p.list| - p.low
  {
    SumOne(p.list, p.low, |p.list|);
    HighToLowKeepsSegments(p);
    if p.low < m {
      TrimHighIsMinimal(HighToLow(p), cap, m);
      SameItemsSum(p.list, HighToLow(p).list, m, |p.list|);
    }
  }

  /** Nor the low pool. */
  lemma {:induction false} TrimLowIsMinimal(p: Pools, mid: nat, cap: real, m: nat)
    requires SegmentedAt(p, mid) && cap >= 0.0 && TrimLow(p, cap).Done? && p.bottom <= m < TrimLow(p, cap).pools.bottom
    ensures m < mid && Sum(p.list, m, mid) as real > cap
    decreases |p.list| - p.bottom
  {
    SumOne(p.list, p.bottom, mid);
    LowToBottomKeepsSegments(p, mid);
    if p.bottom < m {
      TrimLowIsMinimal(LowToBottom(p), mid, cap, m);
      SameItemsSum(p.list, LowToBottom(p).list, m, mid);
    }
  }

  /** From pools in order, trimming meets no failing assertion, leaves them in order and within the caps. */
  lemma MaintainKeepsPools(p: Pools, highCap: real, lowCap: real)
    requires Segmented(p) && Ranged(p) && highCap >= 0.0 && lowCap >= 0.0
    ensures Maintain(p, highCap, lowCap).Done? && Segmented(Maintain(p, highCap, lowCap).pools)
    ensures Within(Maintain(p, highCap, lowCap).pools, highCap, lowCap)
  {
    TrimHighKeepsPools(p, highCap);
    var q := TrimHigh(p, highCap).pools;
    TrimLowKeepsPools(q, q.low, lowCap);
    MaintainKeeps(p, highCap, lowCap);
    TrimHighKeeps(p, highCap);
    TrimLowKeeps(q, lowCap);
  }

  /** The guard of the branch that breaks: a low entry while the high pool is over its cap. */
  predicate Breaks(p: Pools, to: Branch, highCap: real) {
    to.ToLow? && p.high as real > highCap
  }

  /** From pools in order, linking an entry meets no failing assertion and leaves the pools in order exactly
      when it is not a low entry that meets a high pool over its cap. */
  lemma LinkKeepsPoolsExactly(p: Pools, to: Branch, id: nat, charge: nat, highCap: real, lowCap: real)
    requires Segmented(p) && Ranged(p) && highCap >= 0.0 && lowCap >= 0.0
    ensures var r := Link(p, to, id, charge, highCap, lowCap);
      (r.Done? && Segmented(r.pools)) <==> !Breaks(p, to, highCap)
  {
    match to
    case ToHigh =>
      AddHighKeepsSegments(p, id, charge);
      AddHighIsRanged(p, id, charge);
      MaintainKeepsPools(AddHigh(p, id, charge), highCap, lowCap);
    case ToLow =>
      LowLinkExactly(p, id, charge, highCap, lowCap);
    case ToBottom =>
      AddBottomKeepsSegments(p, id, charge);
  }

  lemma LowLinkExactly(p: Pools, id: nat, charge: nat, highCap: real, lowCap: real)
    requires Segmented(p) && Ranged(p) && highCap >= 0.0 && lowCap >= 0.0
    ensures var r := Link(p, ToLow, id, charge, highCap, lowCap);
      (r.Done? && Segmented(r.pools)) <==> p.high as real <= highCap
  {
    var q := AddLow(p, id, charge);
    AddLowIsRanged(p, id, charge);
    AddLowExtendsLowPool(p, id, charge);
    MaintainKeeps(q, highCap, lowCap);
    if p.high as real <= highCap {
      TrimLowKeepsPools(q, p.low + 1, lowCap);
    } else if Link(p, ToLow, id, charge, highCap, lowCap).Done? {
      var r := Link(p, ToLow, id, charge, highCap, lowCap).pools;
      SameItemsSum(q.list, r.list, p.low + 1, |q.list|);
    }
  }

  /** A link that does not break the pools keeps them within their caps. */
  lemma LinkKeepsCaps(p: Pools, to: Branch, id: nat, charge: nat, highCap: real, lowCap: real)
    requires Ranged(p) && Within(p, highCap, lowCap)
    ensures var r := Link(p, to, id, charge, highCap, lowCap);
      r.Done? ==> Within(r.pools, highCap, lowCap)
  {
    match to
    case ToHigh =>
      AddHighIsRanged(p, id, charge);
      MaintainKeeps(AddHigh(p, id, charge), highCap, lowCap);
    case ToLow =>
      AddLowIsRanged(p, id, charge);
      MaintainKeeps(AddLow(p, id, charge), highCap, lowCap);
    case ToBottom =>
  }
}
