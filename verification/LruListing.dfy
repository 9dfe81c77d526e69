/** The LRU list of a shard by handle: the linked nodes, and where among them each listed handle is. */
module LruListing {
  import opened Options
  import opened LruPools
  import opened LruHandles
  import opened LruLinks
  import opened LruRing

  /** `links` knows the node of every listed handle. */
  ghost predicate Places(links: map<nat, Node>, nodes: seq<Node>, list: seq<Item>) {
    && |nodes| == |list| + 1
    && forall k :: 0 <= k < |list| ==> list[k].id in links && links[list[k].id] == nodes[k + 1]
  }

  lemma PlacesRemoved(links: map<nat, Node>, nodes: seq<Node>, list: seq<Item>, k: nat)
    requires Places(links, nodes, list) && k < |list|
    ensures Places(links, Without(nodes, k + 1), Removed(list, k))
  {
  }

  lemma PlacesSame(links: map<nat, Node>, nodes: seq<Node>, list: seq<Item>, list': seq<Item>)
    requires Places(links, nodes, list) && SameItems(list, list')
    ensures Places(links, nodes, list')
  {
  }

  lemma PlacesInserted(links: map<nat, Node>, nodes: seq<Node>, list: seq<Item>, k: nat, item: Item, e: Node)
    requires Places(links, nodes, list) && k <= |list| && item.id !in IdsOf(list)
    ensures Places(links[item.id := e], With(nodes, k + 1, e), Inserted(list, k, item))
  {
    var more := Inserted(list, k, item);
    forall i | 0 <= i < |more|
      ensures more[i].id in links[item.id := e]
      ensures links[item.id := e][more[i].id] == With(nodes, k + 1, e)[i + 1]
    {
      if i != k {
        assert list[if i < k then i else i - 1].id in IdsOf(list);
      }
    }
  }

  /** Linking a node leaves every listed handle known. */
  lemma PlacesLinked(
    links: map<nat, Node>, nodes: seq<Node>, p: Pools, to: Branch, id: nat, charge: nat, e: Node,
    highCap: real, lowCap: real)
    requires Ranged(p) && Places(links, nodes, p.list) && id !in IdsOf(p.list)
    ensures LinkPosition(p, to) <= |p.list|
    ensures var r := Link(p, to, id, charge, highCap, lowCap);
      r.Done? ==> Places(links[id := e], With(nodes, LinkPosition(p, to) + 1, e), r.pools.list)
  {
    var k, item := LinkPosition(p, to), Item(id, charge, false, false);
    var r := Link(p, to, id, charge, highCap, lowCap);
    LinkKeeps(p, to, id, charge, highCap, lowCap);
    PlacesInserted(links, nodes, p.list, k, item, e);
    if r.Done? {
      PlacesSame(links[id := e], With(nodes, k + 1, e), Inserted(p.list, k, item), r.pools.list);
    }
  }

  /** What a listing is to be right about; its users need not look at the parts. */
  datatype Part = Linkage | Address | Values

  class Listing {
    const ring: Ring
    var links: map<nat, Node>
    /** The list and the caps that the nodes stand for. */
    ghost var pools: Pools
    ghost var highCap: real
    ghost var lowCap: real
    ghost var Repr: set<object>

    ghost predicate Valid()
      reads this, Repr
    {
      this in Repr && forall part: Part :: Holds(part)
    }

    ghost predicate Holds(part: Part)
      reads this, Repr
    {
      && this in Repr && ring in Repr && (forall n :: n in ring.nodes ==> n in Repr)
      && match part
         case Linkage => ring.Valid()
         case Address => Places(links, ring.nodes, ring.pools.list)
         case Values => pools == ring.pools && highCap == ring.highCap && lowCap == ring.lowCap
    }

    constructor (highCap: real, lowCap: real)
      ensures Valid() && pools == Pools([], 0, 0, 0, 0, 0) && fresh(Repr)
      ensures this.highCap == highCap && this.lowCap == lowCap
    {
      ring := new Ring(highCap, lowCap);
      links := map[];
      pools, this.highCap, this.lowCap := Pools([], 0, 0, 0, 0, 0), highCap, lowCap;
      new;
      Repr := {this, ring} + set n | n in ring.nodes;
    }

    /** LRU_Remove of a listed handle. */
    method LruRemove(id: nat, ghost k: nat) returns (ok: bool)
      requires Valid() && k < |pools.list| && pools.list[k].id == id
      modifies Repr
      ensures Repr == old(Repr) && highCap == old(highCap) && lowCap == old(lowCap)
      ensures ok == Unlink(old(pools), k).Done?
      ensures ok ==> Valid() && pools == RemoveAt(old(pools), k)
    {
      assert Holds(Linkage) && Holds(Address) && Holds(Values);
      PlacesRemoved(links, ring.nodes, pools.list, k);
      ok := ring.LruRemove(links[id], k);
      pools := ring.pools;
    }

    /** A new node goes into the ring. */
    method Join(e: Node, to: Branch) returns (ok: bool)
      requires ring.Valid() && Ranged(ring.pools) && Places(links, ring.nodes, ring.pools.list)
      requires e.item.id !in IdsOf(ring.pools.list) && e !in ring.nodes
      modifies ring, ring.nodes, e
      ensures ring.highCap == old(ring.highCap) && ring.lowCap == old(ring.lowCap)
      ensures forall n :: n in ring.nodes ==> n in old(ring.nodes) || n == e
      ensures var r := Link(old(ring.pools), to, old(e.item.id), old(e.item.charge), ring.highCap, ring.lowCap);
        ok == r.Done? && (ok ==> ring.Valid() && ring.pools == r.pools)
      ensures ok ==> Places(links[old(e.item.id) := e], ring.nodes, ring.pools.list)
    {
      PlacesLinked(links, ring.nodes, ring.pools, to, e.item.id, e.item.charge, e, ring.highCap, ring.lowCap);
      ok := ring.LruInsert(e, to);
    }

    /** LRU_Insert of a handle that is not listed. */
    method LruInsert(id: nat, charge: nat, to: Branch) returns (ok: bool)
      requires Valid() && Ranged(pools) && id !in IdsOf(pools.list)
      modifies Repr
      ensures highCap == old(highCap) && lowCap == old(lowCap)
      ensures var r := Link(old(pools), to, id, charge, highCap, lowCap);
        ok == r.Done? && (ok ==> Valid() && pools == r.pools && fresh(Repr - old(Repr)))
    {
      assert Holds(Linkage) && Holds(Address) && Holds(Values);
      var e := new Node(Item(id, charge, false, false));
      ok := Join(e, to);
      links := links[id := e];
      pools := ring.pools;
      Repr := Repr + {e};
    }

    method MaintainPoolSize() returns (ok: bool)
      requires Valid() && Ranged(pools)
      modifies Repr
      ensures Repr == old(Repr) && highCap == old(highCap) && lowCap == old(lowCap)
      ensures var r := Maintain(old(pools), highCap, lowCap);
        ok == r.Done? && (ok ==> Valid() && pools == r.pools)
    {
      assert Holds(Linkage) && Holds(Address) && Holds(Values);
      MaintainKeeps(pools, highCap, lowCap);
      ok := ring.MaintainPoolSize();
      if ok {
        PlacesSame(links, ring.nodes, pools.list, ring.pools.list);
      }
      pools := ring.pools;
    }

    /** The handle that EvictFromLRU takes first. */
    method Oldest() returns (id: Option<nat>)
      requires Valid()
      ensures id == if pools.list == [] then None else Some(pools.list[0].id)
    {
      assert Holds(Linkage) && Holds(Address) && Holds(Values);
      var e := ring.Oldest();
      id := if e == ring.head then None else Some(e.item.id);
    }

    /** New caps, which are not applied yet. */
    method SetCaps(highCap: real, lowCap: real)
      requires Valid()
      modifies Repr
      ensures Valid() && Repr == old(Repr) && pools == old(pools)
      ensures this.highCap == highCap && this.lowCap == lowCap
    {
      assert Holds(Linkage) && Holds(Address) && Holds(Values);
      ring.highCap, ring.lowCap := highCap, lowCap;
      this.highCap, this.lowCap := highCap, lowCap;
    }

    method LruUsage() returns (usage: int)
      requires Valid()
      ensures usage == pools.usage
    {
      assert Holds(Linkage) && Holds(Values);
      usage := ring.usage;
    }
  }
}
