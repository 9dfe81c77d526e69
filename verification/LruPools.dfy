/** The LRU list of a cache shard and its three pools.

    The circular list is a sequence from the entry evicted first to the newest one. The two pool
    pointers are positions in it: the number of entries up to and including the one pointed at, and
    zero for the dummy head. */
module LruPools {

  /** A list entry with its pool flags. */
  datatype Item = Item(id: nat, charge: nat, inHigh: bool, inLow: bool)

  /** The charges of `list[a..b]`. */
  function Sum(list: seq<Item>, a: nat, b: nat): (total: nat)
    requires b <= |list|
  {
    if b <= a then 0 else Sum(list, a, b - 1) + list[b - 1].charge
  }

  lemma {:induction false} SumSplits(list: seq<Item>, a: nat, m: nat, b: nat)
    requires a <= m <= b <= |list|
    ensures Sum(list, a, b) == Sum(list, a, m) + Sum(list, m, b)
    decreases b
  {
    if m < b {
      SumSplits(list, a, m, b - 1);
    }
  }

  lemma {:induction false} SumOne(list: seq<Item>, a: nat, b: nat)
    requires a < b <= |list|
    ensures Sum(list, a, b) == list[a].charge + Sum(list, a + 1, b)
  {
    SumSplits(list, a, a + 1, b);
    assert Sum(list, a, a) == 0;
  }

  /** Only the charges matter, wherever the stretch lies. */
  lemma {:induction false} SumShifted(xs: seq<Item>, ys: seq<Item>, a: nat, b: nat, shift: int)
    requires b <= |xs| && 0 <= a + shift && b + shift <= |ys|
    requires forall i :: a <= i < b ==> xs[i].charge == ys[i + shift].charge
    ensures 0 <= b + shift ==> Sum(xs, a, b) == Sum(ys, a + shift, b + shift)
    decreases b
  {
    if a < b {
      SumShifted(xs, ys, a, b - 1, shift);
      assert xs[b - 1].charge == ys[b - 1 + shift].charge;
    }
  }

  /** The same entries with the same charges, whatever their flags. */
  predicate SameItems(xs: seq<Item>, ys: seq<Item>) {
    && |xs| == |ys|
    && forall i :: 0 <= i < |xs| ==> xs[i].id == ys[i].id && xs[i].charge == ys[i].charge
  }

  lemma SameItemsSum(xs: seq<Item>, ys: seq<Item>, a: nat, b: nat)
    requires SameItems(xs, ys) && b <= |xs|
    ensures Sum(xs, a, b) == Sum(ys, a, b)
  {
    if a <= b {
      SumShifted(xs, ys, a, b, 0);
    }
  }

  /** The list of a shard with everything that is kept about it. */
  datatype Pools = Pools(list: seq<Item>, bottom: nat, low: nat, usage: int, high: int, lowUsage: int)

  /** Bottom entries, then low ones up to position `mid`, then high ones, as the flags say. */
  predicate Ordered(list: seq<Item>, bottom: nat, mid: nat) {
    && bottom <= mid <= |list|
    && (forall i :: 0 <= i < bottom ==> !list[i].inHigh && !list[i].inLow)
    && (forall i :: bottom <= i < mid ==> !list[i].inHigh && list[i].inLow)
    && (forall i :: mid <= i < |list| ==> list[i].inHigh && !list[i].inLow)
  }

  /** The pools in order, and the usage counters the sums of their stretches. */
  predicate SegmentedAt(p: Pools, mid: nat) {
    && Ordered(p.list, p.bottom, mid)
    && p.usage == Sum(p.list, 0, |p.list|)
    && p.high == Sum(p.list, mid, |p.list|)
    && p.lowUsage == Sum(p.list, p.bottom, mid)
  }

  /** The pool pointers sit exactly at the ends of the segments. */
  predicate Segmented(p: Pools) {
    match p
    case Pools(_, _, low, _, _, _) => SegmentedAt(p, low)
  }

  /** What holds of the list whatever has become of the pools: the pointers are at entries or at the dummy
      head, no entry is flagged twice, the usage is the sum of the charges and no counter is negative. */
  predicate Ranged(p: Pools) {
    && p.bottom <= |p.list| && p.low <= |p.list|
    && (forall i :: 0 <= i < |p.list| ==> !p.list[i].inHigh || !p.list[i].inLow)
    && p.usage == Sum(p.list, 0, |p.list|)
    && p.high >= 0 && p.lowUsage >= 0
  }

  /** The charges of the entries that are flagged as high. */
  function HighCharge(list: seq<Item>): nat {
    if list == [] then 0
    else HighCharge(list[..|list| - 1]) + if list[|list| - 1].inHigh then list[|list| - 1].charge else 0
  }

  lemma {:induction false} HighChargeIsSum(list: seq<Item>, low: nat)
    requires forall i :: 0 <= i < |list| ==> list[i].inHigh == (low <= i)
    ensures HighCharge(list) == Sum(list, low, |list|)
  {
    if list != [] {
      var last := |list| - 1;
      HighChargeIsSum(list[..last], low);
      if low <= last {
        SumShifted(list[..last], list, low, last, 0);
      }
    }
  }

  /** The high usage is what the flags say it is. */
  lemma HighIsFlagged(p: Pools)
    requires Segmented(p)
    ensures p.high == HighCharge(p.list)
  {
    HighChargeIsSum(p.list, p.low);
  }

  /** The share of a capacity that a ratio asks for: `capacity * ratio`, added up. */
  function Share(capacity: nat, ratio: real): real {
    if capacity == 0 then 0.0 else Share(capacity - 1, ratio) + ratio
  }

  lemma {:induction false} ShareIsProduct(capacity: nat, ratio: real)
    ensures Share(capacity, ratio) == capacity as real * ratio
  {
    if capacity > 0 {
      ShareIsProduct(capacity - 1, ratio);
      var before := (capacity - 1) as real;
      assert capacity as real * ratio == (before + 1.0) * ratio == before * ratio + ratio;
    }
  }

  lemma {:induction false} ShareGrows(a: nat, b: nat, ratio: real)
    requires ratio >= 0.0 && a <= b
    ensures 0.0 <= Share(a, ratio) <= Share(b, ratio)
    decreases b
  {
    if a < b {
      ShareGrows(a, b - 1, ratio);
    } else if a > 0 {
      ShareGrows(a - 1, b - 1, ratio);
    }
  }

  predicate Within(p: Pools, highCap: real, lowCap: real) {
    p.high as real <= highCap && p.lowUsage as real <= lowCap
  }

  function Removed(list: seq<Item>, k: nat): seq<Item>
    requires k < |list|
  {
    list[..k] + list[k + 1..]
  }

  function Inserted(list: seq<Item>, k: nat, e: Item): seq<Item>
    requires k <= |list|
  {
    list[..k] + [e] + list[k..]
  }

  lemma {:induction false} SumAcrossRemove(list: seq<Item>, k: nat, a: nat, b: nat)
    requires a <= k < b <= |list|
    ensures Sum(Removed(list, k), a, b - 1) == Sum(list, a, b) - list[k].charge
  {
    var r := Removed(list, k);
    SumSplits(list, a, k, b);
    SumOne(list, k, b);
    SumShifted(list, r, a, k, 0);
    SumShifted(list, r, k + 1, b, -1);
    SumSplits(r, a, k, b - 1);
  }

  lemma {:induction false} SumRemoved(list: seq<Item>, k: nat, a: nat, b: nat)
    requires k < |list| && a <= b <= |list|
    ensures k < a ==> Sum(Removed(list, k), a - 1, b - 1) == Sum(list, a, b)
    ensures a <= k < b ==> Sum(Removed(list, k), a, b - 1) == Sum(list, a, b) - list[k].charge
    ensures b <= k ==> Sum(Removed(list, k), a, b) == Sum(list, a, b)
  {
    if k < a {
      SumShifted(list, Removed(list, k), a, b, -1);
    } else if k < b {
      SumAcrossRemove(list, k, a, b);
    } else {
      SumShifted(list, Removed(list, k), a, b, 0);
    }
  }

  lemma {:induction false} SumPastInsert(list: seq<Item>, k: nat, e: Item, a: nat, b: nat)
    requires k <= a <= b <= |list|
    ensures Sum(Inserted(list, k, e), a + 1, b + 1) == Sum(list, a, b)
  {
    SumShifted(list, Inserted(list, k, e), a, b, 1);
  }

  lemma {:induction false} SumBeforeInsert(list: seq<Item>, k: nat, e: Item, a: nat, b: nat)
    requires a <= b <= k <= |list|
    ensures Sum(Inserted(list, k, e), a, b) == Sum(list, a, b)
  {
    SumShifted(list, Inserted(list, k, e), a, b, 0);
  }

  lemma {:induction false} SumAcrossInsert(list: seq<Item>, k: nat, e: Item, a: nat, b: nat)
    requires a <= k <= b <= |list|
    ensures Sum(Inserted(list, k, e), a, b + 1) == Sum(list, a, b) + e.charge
  {
    var r := Inserted(list, k, e);
    SumSplits(list, a, k, b);
    SumBeforeInsert(list, k, e, a, k);
    SumPastInsert(list, k, e, k, b);
    SumSplits(r, a, k, b + 1);
    SumOne(r, k, b + 1);
  }

  /** Where a pointer stands after the entry at `k` is unlinked: pointers at it move to the entry
      before it, and those past it lose one position. */
  function PointerAfterRemove(c: nat, k: nat): nat {
    if c > k then c - 1 else c
  }

  /** Where a pointer stands after an entry is linked in at `k`. */
  function PointerAfterInsert(c: nat, k: nat): nat {
    if c > k then c + 1 else c
  }

  /** LRU_Remove of the entry at `k`. */
  function RemoveAt(p: Pools, k: nat): Pools
    requires k < |p.list|
  {
    var e := p.list[k];
    Pools(Removed(p.list, k), PointerAfterRemove(p.bottom, k), PointerAfterRemove(p.low, k),
          p.usage - e.charge,
          if e.inHigh then p.high - e.charge else p.high,
          if !e.inHigh && e.inLow then p.lowUsage - e.charge else p.lowUsage)
  }

  lemma RemoveKeepsOrder(list: seq<Item>, bottom: nat, low: nat, k: nat)
    requires Ordered(list, bottom, low) && k < |list|
    ensures Ordered(Removed(list, k), PointerAfterRemove(bottom, k), PointerAfterRemove(low, k))
  {
  }

  lemma {:induction false} RemoveKeepsSegments(p: Pools, k: nat)
    requires Segmented(p) && k < |p.list|
    ensures Segmented(RemoveAt(p, k))
    ensures RemoveAt(p, k).high <= p.high && RemoveAt(p, k).lowUsage <= p.lowUsage
  {
    RemoveKeepsOrder(p.list, p.bottom, p.low, k);
    SumRemoved(p.list, k, 0, |p.list|);
    SumRemoved(p.list, k, p.low, |p.list|);
    SumRemoved(p.list, k, p.bottom, p.low);
  }

  /** A new high entry at the newest end, before the pools are trimmed. */
  function AddHigh(p: Pools, id: nat, charge: nat): Pools {
    p.(list := Inserted(p.list, |p.list|, Item(id, charge, true, false)),
       usage := p.usage + charge, high := p.high + charge)
  }

  lemma {:induction false} AddHighKeepsSegments(p: Pools, id: nat, charge: nat)
    requires Segmented(p)
    ensures Segmented(AddHigh(p, id, charge))
  {
    var e := Item(id, charge, true, false);
    SumAcrossInsert(p.list, |p.list|, e, 0, |p.list|);
    SumAcrossInsert(p.list, |p.list|, e, p.low, |p.list|);
    SumBeforeInsert(p.list, |p.list|, e, p.bottom, p.low);
  }

  /** A new low entry after the low pointer, which does not move yet. */
  function AddLow(p: Pools, id: nat, charge: nat): Pools
    requires p.low <= |p.list|
  {
    p.(list := Inserted(p.list, p.low, Item(id, charge, false, true)),
       bottom := PointerAfterInsert(p.bottom, p.low),
       usage := p.usage + charge, lowUsage := p.lowUsage + charge)
  }

  lemma {:induction false} AddLowExtendsLowPool(p: Pools, id: nat, charge: nat)
    requires Segmented(p)
    ensures SegmentedAt(AddLow(p, id, charge), p.low + 1)
  {
    var e := Item(id, charge, false, true);
    SumAcrossInsert(p.list, p.low, e, 0, |p.list|);
    SumPastInsert(p.list, p.low, e, p.low, |p.list|);
    SumAcrossInsert(p.list, p.low, e, p.bottom, p.low);
  }

  /** A new bottom entry after the bottom pointer; the low pointer moves with it when the low pool
      is empty. */
  function AddBottom(p: Pools, id: nat, charge: nat): Pools
    requires p.bottom <= |p.list|
  {
    p.(list := Inserted(p.list, p.bottom, Item(id, charge, false, false)),
       usage := p.usage + charge,
       low := if p.bottom == p.low then p.bottom + 1 else PointerAfterInsert(p.low, p.bottom),
       bottom := p.bottom + 1)
  }

  lemma {:induction false} AddBottomKeepsSegments(p: Pools, id: nat, charge: nat)
    requires Segmented(p)
    ensures Segmented(AddBottom(p, id, charge))
  {
    var e := Item(id, charge, false, false);
    SumAcrossInsert(p.list, p.bottom, e, 0, |p.list|);
    SumPastInsert(p.list, p.bottom, e, p.low, |p.list|);
    SumPastInsert(p.list, p.bottom, e, p.bottom, p.low);
  }

  /** The oldest high entry becomes the newest low one. */
  function HighToLow(p: Pools): Pools
    requires p.low < |p.list|
  {
    var e := p.list[p.low];
    p.(list := p.list[p.low := e.(inHigh := false, inLow := true)], low := p.low + 1,
       high := p.high - e.charge, lowUsage := p.lowUsage + e.charge)
  }

  lemma {:induction false} HighToLowKeepsSegments(p: Pools)
    requires Segmented(p) && p.low < |p.list|
    ensures Segmented(HighToLow(p)) && SameItems(p.list, HighToLow(p).list)
  {
    var q := HighToLow(p);
    SumOne(p.list, p.low, |p.list|);
    SameItemsSum(p.list, q.list, 0, |p.list|);
    SameItemsSum(p.list, q.list, p.low + 1, |p.list|);
    SameItemsSum(p.list, q.list, p.bottom, p.low);
  }

  /** The oldest low entry becomes the newest bottom one. */
  function LowToBottom(p: Pools): Pools
    requires p.bottom < |p.list|
  {
    var e := p.list[p.bottom];
    p.(list := p.list[p.bottom := e.(inHigh := false, inLow := false)], bottom := p.bottom + 1,
       lowUsage := p.lowUsage - e.charge)
  }

  lemma {:induction false} LowToBottomKeepsSegments(p: Pools, mid: nat)
    requires SegmentedAt(p, mid) && p.bottom < mid
    ensures SegmentedAt(LowToBottom(p), mid) && SameItems(p.list, LowToBottom(p).list)
  {
    var q := LowToBottom(p);
    SumOne(p.list, p.bottom, mid);
    SameItemsSum(p.list, q.list, 0, |p.list|);
    SameItemsSum(p.list, q.list, mid, |p.list|);
    SameItemsSum(p.list, q.list, p.bottom + 1, mid);
  }
}
