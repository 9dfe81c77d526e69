/** The LRU list as pointers: handles linked in both directions through a dummy head, and two pointers into them.

    Each operation on the pointers is proved to do what the operation of the same name does to the list
    as a sequence, failing assertions included. */
module LruRing {
  import opened LruPools
  import opened LruLinks

  class Node {
    var item: Item
    var next: Node?
    var prev: Node?

    constructor (item: Item)
      ensures this.item == item && next == null && prev == null
    {
      this.item, next, prev := item, null, null;
    }
  }

  function Succ(i: nat, n: nat): nat {
    if i + 1 < n then i + 1 else 0
  }

  function Pred(i: nat, n: nat): int {
    if i > 0 then i - 1 else n - 1
  }

  /** The nodes are all different, and each points at the next and the one before, round the end. */
  ghost predicate Linked(nodes: seq<Node>)
    reads nodes
  {
    && |nodes| > 0
    && (forall i, j :: 0 <= i < j < |nodes| ==> nodes[i] != nodes[j])
    && (forall i :: 0 <= i < |nodes| ==> LinkedAt(nodes, i))
  }

  ghost predicate LinkedAt(nodes: seq<Node>, i: nat)
    requires i < |nodes|
    reads nodes
  {
    nodes[i].next == nodes[Succ(i, |nodes|)] && nodes[i].prev == nodes[Pred(i, |nodes|)]
  }

  ghost function Without(nodes: seq<Node>, k: nat): seq<Node>
    requires k < |nodes|
  {
    nodes[..k] + nodes[k + 1..]
  }

  ghost function With(nodes: seq<Node>, k: nat, e: Node): seq<Node>
    requires k <= |nodes|
  {
    nodes[..k] + [e] + nodes[k..]
  }

  /** The four assignments that take a node out of the ring. */
  method Detach(e: Node, ghost nodes: seq<Node>, ghost k: nat)
    requires Linked(nodes) && 0 < k < |nodes| && nodes[k] == e
    modifies nodes`next, nodes`prev
    ensures Linked(Without(nodes, k)) && e.next == null && e.prev == null
  {
    assert LinkedAt(nodes, k);
    var before, after := e.prev, e.next;
    ghost var rest := Without(nodes, k);
    after.prev := before;
    before.next := after;
    e.prev, e.next := null, null;
    forall i | 0 <= i < |rest|
      ensures LinkedAt(rest, i)
    {
      assert old(LinkedAt(nodes, if i < k then i else i + 1));
    }
  }

  /** The four assignments that put a node after another. */
  method Attach(e: Node, before: Node, ghost nodes: seq<Node>, ghost k: nat)
    requires Linked(nodes) && k < |nodes| && nodes[k] == before && e !in nodes
    modifies nodes`next, nodes`prev, e`next, e`prev
    ensures Linked(With(nodes, k + 1, e))
  {
    assert LinkedAt(nodes, k);
    var after := before.next;
    ghost var more := With(nodes, k + 1, e);
    e.next := after;
    e.prev := before;
    before.next := e;
    after.prev := e;
    forall i | 0 <= i < |more|
      ensures LinkedAt(more, i)
    {
      if i <= k {
        assert old(LinkedAt(nodes, i));
      } else if i > k + 1 {
        assert old(LinkedAt(nodes, i - 1));
      }
    }
  }

  /** Changing what a node holds leaves the ring alone. */
  method Mark(n: Node, inHigh: bool, inLow: bool, ghost nodes: seq<Node>)
    requires Linked(nodes)
    modifies n`item
    ensures Linked(nodes) && n.item == old(n.item).(inHigh := inHigh, inLow := inLow)
  {
    n.item := n.item.(inHigh := inHigh, inLow := inLow);
    forall i | 0 <= i < |nodes|
      ensures LinkedAt(nodes, i)
    {
      assert old(LinkedAt(nodes, i));
    }
  }

  /** The nodes after the head hold the list. */
  ghost predicate Represents(nodes: seq<Node>, list: seq<Item>)
    reads nodes
  {
    |nodes| == |list| + 1 && forall i :: 0 <= i < |list| ==> nodes[i + 1].item == list[i]
  }

  lemma WithoutRepresents(nodes: seq<Node>, list: seq<Item>, k: nat)
    requires Represents(nodes, list) && k < |list|
    ensures Represents(Without(nodes, k + 1), Removed(list, k))
  {
  }

  lemma WithRepresents(nodes: seq<Node>, list: seq<Item>, k: nat, e: Node)
    requires Represents(nodes, list) && k <= |list|
    ensures Represents(With(nodes, k + 1, e), Inserted(list, k, e.item))
  {
  }

  /** The list with what a shard keeps about it. */
  class Ring {
    const head: Node
    var lowPri: Node
    var bottomPri: Node
    var usage: int
    var high: int
    var lowUsage: int
    var highCap: real
    var lowCap: real
    ghost var nodes: seq<Node>
    ghost var pools: Pools

    /** Pointers and counters are those of `pools`. */
    ghost predicate Points()
      reads this
    {
      && |nodes| == |pools.list| + 1 && nodes[0] == head
      && pools.low <= |pools.list| && lowPri == nodes[pools.low]
      && pools.bottom <= |pools.list| && bottomPri == nodes[pools.bottom]
      && usage == pools.usage && high == pools.high && lowUsage == pools.lowUsage
    }

    ghost predicate Valid()
      reads this, nodes
    {
      Points() && Linked(nodes) && Represents(nodes, pools.list)
    }

    constructor (highCap: real, lowCap: real)
      ensures Valid() && pools == Pools([], 0, 0, 0, 0, 0) && fresh(nodes)
      ensures this.highCap == highCap && this.lowCap == lowCap
    {
      var dummy := new Node(Item(0, 0, false, false));
      dummy.next := dummy;
      dummy.prev := dummy;
      head := dummy;
      lowPri, bottomPri := dummy, dummy;
      usage, high, lowUsage := 0, 0, 0;
      this.highCap, this.lowCap := highCap, lowCap;
      nodes := [dummy];
      pools := Pools([], 0, 0, 0, 0, 0);
      new;
      assert LinkedAt(nodes, 0);
    }

    method MoveOff(e: Node, ghost k: nat)
      requires Valid() && k < |pools.list| && nodes[k + 1] == e
      modifies this`lowPri, this`bottomPri
      ensures lowPri == Without(nodes, k + 1)[PointerAfterRemove(pools.low, k)]
      ensures bottomPri == Without(nodes, k + 1)[PointerAfterRemove(pools.bottom, k)]
    {
      assert LinkedAt(nodes, k + 1);
      if lowPri == e {
        lowPri := e.prev;
      }
      if bottomPri == e {
        bottomPri := e.prev;
      }
    }

    /** The pointers move off the node, and it leaves the ring. */
    method Unhook(e: Node, ghost k: nat)
      requires Valid() && k < |pools.list| && nodes[k + 1] == e
      modifies this`lowPri, this`bottomPri, this`nodes, nodes`next, nodes`prev
      ensures e.next == null && e.prev == null && nodes == Without(old(nodes), k + 1)
      ensures Linked(nodes) && Represents(nodes, Removed(pools.list, k))
      ensures lowPri == nodes[PointerAfterRemove(pools.low, k)]
      ensures bottomPri == nodes[PointerAfterRemove(pools.bottom, k)]
    {
      WithoutRepresents(nodes, pools.list, k);
      MoveOff(e, k);
      Detach(e, nodes, k + 1);
      nodes := Without(nodes, k + 1);
    }

    /** LRU_Remove. */
    method LruRemove(e: Node, ghost k: nat) returns (ok: bool)
      requires Valid() && k < |pools.list| && nodes[k + 1] == e
      modifies this`lowPri, this`bottomPri, this`usage, this`high, this`lowUsage, this`nodes, this`pools,
        nodes`next, nodes`prev
      ensures e.next == null && e.prev == null && nodes == Without(old(nodes), k + 1)
      ensures ok == Unlink(old(pools), k).Done?
      ensures ok ==> Valid() && pools == RemoveAt(old(pools), k)
    {
      Unhook(e, k);
      if usage < e.item.charge || (e.item.inHigh && e.item.inLow) {
        return false;
      }
      usage := usage - e.item.charge;
      if e.item.inHigh {
        if high < e.item.charge {
          return false;
        }
        high := high - e.item.charge;
      } else if e.item.inLow {
        if lowUsage < e.item.charge {
          return false;
        }
        lowUsage := lowUsage - e.item.charge;
      }
      pools := RemoveAt(pools, k);
      return true;
    }

    /** The node that the low pointer has moved to overflows. */
    method MarkLow() returns (ok: bool)
      requires Linked(nodes) && Represents(nodes, pools.list) && nodes[0] == head
      requires pools.low < |pools.list| && lowPri == nodes[pools.low + 1]
      requires pools.bottom <= |pools.list| && bottomPri == nodes[pools.bottom]
      requires usage == pools.usage && high == pools.high && lowUsage == pools.lowUsage
      modifies this`high, this`lowUsage, this`pools, lowPri`item
      ensures ok <==> old(high) >= old(pools.list[pools.low].charge)
      ensures ok ==> Valid() && pools == HighToLow(old(pools))
    {
      Mark(lowPri, false, true, nodes);
      if high < lowPri.item.charge {
        return false;
      }
      high := high - lowPri.item.charge;
      lowUsage := lowUsage + lowPri.item.charge;
      pools := HighToLow(pools);
      return true;
    }

    /** The first loop of MaintainPoolSize. */
    method DemoteHigh() returns (ok: bool)
      requires Valid()
      modifies this`lowPri, this`high, this`lowUsage, this`pools, nodes`item
      ensures ok == TrimHigh(old(pools), highCap).Done?
      ensures ok ==> Valid() && pools == TrimHigh(old(pools), highCap).pools
    {
      ghost var goal := TrimHigh(pools, highCap);
      while high as real > highCap
        invariant Valid() && TrimHigh(pools, highCap) == goal
        decreases |pools.list| - pools.low
      {
        assert LinkedAt(nodes, pools.low);
        lowPri := lowPri.next;
        if lowPri == head {
          return false;
        }
        ok := MarkLow();
        if !ok {
          return false;
        }
      }
      return true;
    }

    /** The node that the bottom pointer has moved to overflows. */
    method MarkBottom() returns (ok: bool)
      requires Linked(nodes) && Represents(nodes, pools.list) && nodes[0] == head
      requires pools.bottom < |pools.list| && bottomPri == nodes[pools.bottom + 1]
      requires pools.low <= |pools.list| && lowPri == nodes[pools.low]
      requires usage == pools.usage && high == pools.high && lowUsage == pools.lowUsage
      modifies this`lowUsage, this`pools, bottomPri`item
      ensures ok <==> old(lowUsage) >= old(pools.list[pools.bottom].charge)
      ensures ok ==> Valid() && pools == LowToBottom(old(pools))
    {
      Mark(bottomPri, false, false, nodes);
      if lowUsage < bottomPri.item.charge {
        return false;
      }
      lowUsage := lowUsage - bottomPri.item.charge;
      pools := LowToBottom(pools);
      return true;
    }

    /** The second loop. */
    method DemoteLow() returns (ok: bool)
      requires Valid()
      modifies this`bottomPri, this`lowUsage, this`pools, nodes`item
      ensures ok == TrimLow(old(pools), lowCap).Done?
      ensures ok ==> Valid() && pools == TrimLow(old(pools), lowCap).pools
    {
      ghost var goal := TrimLow(pools, lowCap);
      while lowUsage as real > lowCap
        invariant Valid() && TrimLow(pools, lowCap) == goal
        decreases |pools.list| - pools.bottom
      {
        assert LinkedAt(nodes, pools.bottom);
        bottomPri := bottomPri.next;
        if bottomPri == head {
          return false;
        }
        ok := MarkBottom();
        if !ok {
          return false;
        }
      }
      return true;
    }

    method MaintainPoolSize() returns (ok: bool)
      requires Valid() && Ranged(pools)
      modifies this`lowPri, this`bottomPri, this`high, this`lowUsage, this`pools, nodes`item
      ensures ok == Maintain(old(pools), highCap, lowCap).Done?
      ensures ok ==> Valid() && pools == Maintain(old(pools), highCap, lowCap).pools
    {
      TrimHighKeeps(pools, highCap);
      ok := DemoteHigh();
      if ok {
        ok := DemoteLow();
      }
    }

    /** A node comes in after another; no pointer moves. */
    method Hook(e: Node, before: Node, ghost k: nat)
      requires Valid() && k <= |pools.list| && nodes[k] == before && e !in nodes
      modifies this`nodes, nodes`next, nodes`prev, e`next, e`prev
      ensures nodes == With(old(nodes), k + 1, e)
      ensures Linked(nodes) && Represents(nodes, Inserted(pools.list, k, e.item))
      ensures lowPri == nodes[PointerAfterInsert(pools.low, k)]
      ensures bottomPri == nodes[PointerAfterInsert(pools.bottom, k)]
    {
      WithRepresents(nodes, pools.list, k, e);
      Attach(e, before, nodes, k);
      nodes := With(nodes, k + 1, e);
    }

    method LinkHigh(e: Node) returns (ok: bool)
      requires Valid() && Ranged(pools) && e !in nodes
      modifies this`lowPri, this`bottomPri, this`usage, this`high, this`lowUsage, this`nodes, this`pools, nodes, e
      ensures nodes == With(old(nodes), |old(pools.list)| + 1, e)
      ensures var r := Link(old(pools), ToHigh, old(e.item.id), old(e.item.charge), highCap, lowCap);
        ok == r.Done? && (ok ==> Valid() && pools == r.pools)
    {
      AddHighIsRanged(pools, e.item.id, e.item.charge);
      assert LinkedAt(nodes, 0);
      e.item := e.item.(inHigh := true, inLow := false);
      Hook(e, head.prev, |pools.list|);
      high := high + e.item.charge;
      usage := usage + e.item.charge;
      pools := AddHigh(pools, e.item.id, e.item.charge);
      ok := MaintainPoolSize();
    }

    method JoinLow(e: Node)
      requires Valid() && e !in nodes
      modifies this`nodes, this`lowUsage, this`usage, this`pools, nodes`next, nodes`prev, e
      ensures nodes == With(old(nodes), old(pools.low) + 1, e)
      ensures Valid() && pools == AddLow(old(pools), old(e.item.id), old(e.item.charge))
    {
      e.item := e.item.(inHigh := false, inLow := true);
      Hook(e, lowPri, pools.low);
      lowUsage := lowUsage + e.item.charge;
      usage := usage + e.item.charge;
      pools := AddLow(pools, e.item.id, e.item.charge);
    }

    method LinkLow(e: Node) returns (ok: bool)
      requires Valid() && Ranged(pools) && e !in nodes
      modifies this`lowPri, this`bottomPri, this`usage, this`high, this`lowUsage, this`nodes, this`pools, nodes, e
      ensures nodes == With(old(nodes), old(pools.low) + 1, e)
      ensures var r := Link(old(pools), ToLow, old(e.item.id), old(e.item.charge), highCap, lowCap);
        ok == r.Done? && (ok ==> Valid() && pools == r.pools)
    {
      AddLowIsRanged(pools, e.item.id, e.item.charge);
      MaintainKeeps(AddLow(pools, e.item.id, e.item.charge), highCap, lowCap);
      ghost var k := pools.low;
      JoinLow(e);
      ok := MaintainPoolSize();
      lowPri := e;
      pools := pools.(low := k + 1);
    }

    method LinkBottom(e: Node)
      requires Valid() && e !in nodes
      modifies this`lowPri, this`bottomPri, this`usage, this`high, this`lowUsage, this`nodes, this`pools, nodes, e
      ensures nodes == With(old(nodes), old(pools.bottom) + 1, e)
      ensures Valid() && pools == AddBottom(old(pools), old(e.item.id), old(e.item.charge))
    {
      e.item := e.item.(inHigh := false, inLow := false);
      Hook(e, bottomPri, pools.bottom);
      if bottomPri == lowPri {
        lowPri := e;
      }
      bottomPri := e;
      usage := usage + e.item.charge;
      pools := AddBottom(pools, e.item.id, e.item.charge);
    }

    /** LRU_Insert, once its branch is decided. */
    method LruInsert(e: Node, to: Branch) returns (ok: bool)
      requires Valid() && Ranged(pools) && e !in nodes
      modifies this`lowPri, this`bottomPri, this`usage, this`high, this`lowUsage, this`nodes, this`pools, nodes, e
      ensures nodes == With(old(nodes), LinkPosition(old(pools), to) + 1, e)
      ensures var r := Link(old(pools), to, old(e.item.id), old(e.item.charge), highCap, lowCap);
        ok == r.Done? && (ok ==> Valid() && pools == r.pools)
    {
      match to
      case ToHigh => ok := LinkHigh(e);
      case ToLow => ok := LinkLow(e);
      case ToBottom =>
        LinkBottom(e);
        ok := true;
    }

    /** What EvictFromLRU takes first: the node after the head, or the head itself when the list is empty. */
    method Oldest() returns (e: Node)
      requires Valid()
      ensures pools.list == [] <==> e == head
      ensures pools.list != [] ==> e == nodes[1] && e.item == pools.list[0]
    {
      assert LinkedAt(nodes, 0);
      e := head.next;
    }
  }
}
