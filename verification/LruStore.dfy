/** What a shard keeps its entries in: the hash table and the linked list, which stand for a map and for a list in
    pools. */
module LruStore {
  import opened Options
  import opened CacheTypes
  import opened LruPools
  import opened LruHandles
  import opened LruLinks
  import opened LruIndex
  import opened LruListing

  /** What a store is to be right about; a shard need not look at the parts. */
  datatype Part = Table | List

  class Store {
    const index: Index
    const listing: Listing
    /** What they stand for. */
    ghost var table: map<Key, nat>
    ghost var pools: Pools
    ghost var highCap: real
    ghost var lowCap: real
    ghost var Repr: set<object>

    ghost predicate Valid()
      reads this, Repr
    {
      this in Repr && forall part: Part :: Holds(part)
    }

    ghost predicate Holds(part: Part)
      reads this, Repr
    {
      && {this, index, listing} <= Repr && index.Repr <= Repr && listing.Repr <= Repr
      && index.Repr !! listing.Repr && this !in index.Repr && this !in listing.Repr
      && match part
         case Table => index.Valid() && table == index.entries
         case List =>
           listing.Valid() && pools == listing.pools && highCap == listing.highCap && lowCap == listing.lowCap
    }

    constructor (highCap: real, lowCap: real, maxBits: nat, hash: Key -> Hash)
      ensures Valid() && fresh(Repr)
      ensures table == map[] && pools == Pools([], 0, 0, 0, 0, 0)
      ensures this.highCap == highCap && this.lowCap == lowCap
    {
      var i := new Index(maxBits, hash);
      var l := new Listing(highCap, lowCap);
      index, listing := i, l;
      table, pools, this.highCap, this.lowCap := map[], Pools([], 0, 0, 0, 0, 0), highCap, lowCap;
      Repr := {this} + i.Repr + l.Repr;
    }

    method Lookup(key: Key) returns (found: Option<nat>)
      requires Valid()
      ensures found == if key in table then Some(table[key]) else None
    {
      assert Holds(Table) && Holds(List);
      found := index.Lookup(key);
    }

    method Insert(key: Key, id: nat) returns (was: Option<nat>)
      requires Valid()
      modifies Repr
      ensures Valid() && Repr == old(Repr)
      ensures pools == old(pools) && highCap == old(highCap) && lowCap == old(lowCap)
      ensures table == old(table)[key := id]
      ensures was == if key in old(table) then Some(old(table)[key]) else None
    {
      assert Holds(Table) && Holds(List);
      was := index.Insert(key, id);
      table := index.entries;
    }

    method Remove(key: Key) returns (was: Option<nat>)
      requires Valid()
      modifies Repr
      ensures Valid() && Repr == old(Repr)
      ensures pools == old(pools) && highCap == old(highCap) && lowCap == old(lowCap)
      ensures table == old(table) - {key}
      ensures was == if key in old(table) then Some(old(table)[key]) else None
    {
      assert Holds(Table) && Holds(List);
      was := index.Remove(key);
      table := index.entries;
    }

    method LruRemove(id: nat, ghost k: nat) returns (ok: bool)
      requires Valid() && k < |pools.list| && pools.list[k].id == id
      modifies Repr
      ensures Repr == old(Repr) && table == old(table) && highCap == old(highCap) && lowCap == old(lowCap)
      ensures ok == Unlink(old(pools), k).Done?
      ensures ok ==> Valid() && pools == RemoveAt(old(pools), k)
    {
      assert Holds(Table) && Holds(List);
      ok := listing.LruRemove(id, k);
      pools := listing.pools;
    }

    method LruInsert(id: nat, charge: nat, to: Branch) returns (ok: bool)
      requires Valid() && Ranged(pools) && id !in IdsOf(pools.list)
      modifies Repr
      ensures table == old(table) && highCap == old(highCap) && lowCap == old(lowCap)
      ensures var r := Link(old(pools), to, id, charge, highCap, lowCap);
        ok == r.Done? && (ok ==> Valid() && pools == r.pools && fresh(Repr - old(Repr)))
    {
      assert Holds(Table) && Holds(List);
      ok := listing.LruInsert(id, charge, to);
      pools := listing.pools;
      Repr := Repr + listing.Repr;
    }

    method MaintainPoolSize() returns (ok: bool)
      requires Valid() && Ranged(pools)
      modifies Repr
      ensures Repr == old(Repr) && table == old(table) && highCap == old(highCap) && lowCap == old(lowCap)
      ensures var r := Maintain(old(pools), highCap, lowCap);
        ok == r.Done? && (ok ==> Valid() && pools == r.pools)
    {
      assert Holds(Table) && Holds(List);
      ok := listing.MaintainPoolSize();
      pools := listing.pools;
    }

    method Oldest() returns (id: Option<nat>)
      requires Valid()
      ensures id == if pools.list == [] then None else Some(pools.list[0].id)
    {
      assert Holds(Table) && Holds(List);
      id := listing.Oldest();
    }

    method SetCaps(highCap: real, lowCap: real)
      requires Valid()
      modifies Repr
      ensures Valid() && Repr == old(Repr) && table == old(table) && pools == old(pools)
      ensures this.highCap == highCap && this.lowCap == lowCap
    {
      assert Holds(Table) && Holds(List);
      listing.SetCaps(highCap, lowCap);
      this.highCap, this.lowCap := highCap, lowCap;
    }

    method LruUsage() returns (usage: int)
      requires Valid()
      ensures usage == pools.usage
    {
      assert Holds(Table) && Holds(List);
      usage := listing.LruUsage();
    }
  }
}
