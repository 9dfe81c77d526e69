/** The hash table of a shard: handles by key, in the chains of the table under the hash of the key. */
module LruIndex {
  import opened Arithmetic
  import opened Options
  import opened CacheTypes
  import opened LruTable

  type Hash = h: nat | h < Pow2(HASH_BITS) witness 0

  function TagOf(hash: Key -> Hash, key: Key): Tag {
    Tag(hash(key), key)
  }

  /** The entries by tag. */
  ghost function Tagged(hash: Key -> Hash, entries: map<Key, nat>): map<Tag, nat> {
    map key | key in entries :: TagOf(hash, key) := entries[key]
  }

  lemma TaggedHas(hash: Key -> Hash, entries: map<Key, nat>, key: Key)
    ensures TagOf(hash, key) in Tagged(hash, entries) <==> key in entries
    ensures key in entries ==> Tagged(hash, entries)[TagOf(hash, key)] == entries[key]
  {
  }

  lemma TaggedPut(hash: Key -> Hash, entries: map<Key, nat>, key: Key, id: nat)
    ensures Tagged(hash, entries[key := id]) == Tagged(hash, entries)[TagOf(hash, key) := id]
  {
  }

  lemma TaggedCut(hash: Key -> Hash, entries: map<Key, nat>, key: Key)
    ensures Tagged(hash, entries - {key}) == Tagged(hash, entries) - {TagOf(hash, key)}
  {
  }

  /** What an index is to be right about; its users need not look at the parts. */
  datatype Part = Chains | Tags

  class Index {
    const table: HandleTable
    const hash: Key -> Hash
    /** The map that the chains stand for. */
    ghost var entries: map<Key, nat>
    ghost const Repr: set<object>

    ghost predicate Valid()
      reads this, Repr
    {
      Repr == {this, table} && forall part: Part :: Holds(part)
    }

    ghost predicate Holds(part: Part)
      requires Repr == {this, table}
      reads this, Repr
    {
      match part
      case Chains => table.Valid()
      case Tags => table.model == Tagged(hash, entries)
    }

    constructor (maxBits: nat, hash: Key -> Hash)
      ensures Valid() && entries == map[] && fresh(Repr)
    {
      this.hash := hash;
      table := new HandleTable(maxBits);
      entries := map[];
      Repr := {this, table};
    }

    method Lookup(key: Key) returns (found: Option<nat>)
      requires Valid()
      ensures found == if key in entries then Some(entries[key]) else None
    {
      assert Holds(Chains) && Holds(Tags);
      TaggedHas(hash, entries, key);
      found := table.Lookup(TagOf(hash, key));
    }

    method InsertTagged(key: Key, id: nat) returns (was: Option<nat>)
      requires table.Valid() && table.model == Tagged(hash, entries)
      modifies table
      ensures table.Valid() && table.model == Tagged(hash, entries[key := id])
      ensures was == if key in entries then Some(entries[key]) else None
    {
      TaggedHas(hash, entries, key);
      TaggedPut(hash, entries, key, id);
      was := table.Insert(Node(TagOf(hash, key), id));
    }

    method Insert(key: Key, id: nat) returns (was: Option<nat>)
      requires Valid()
      modifies Repr
      ensures Valid() && entries == old(entries)[key := id]
      ensures was == if key in old(entries) then Some(old(entries)[key]) else None
    {
      assert Holds(Chains) && Holds(Tags);
      was := InsertTagged(key, id);
      entries := entries[key := id];
    }

    method RemoveTagged(key: Key) returns (was: Option<nat>)
      requires table.Valid() && table.model == Tagged(hash, entries)
      modifies table
      ensures table.Valid() && table.model == Tagged(hash, entries - {key})
      ensures was == if key in entries then Some(entries[key]) else None
    {
      TaggedHas(hash, entries, key);
      TaggedCut(hash, entries, key);
      was := table.Remove(TagOf(hash, key));
    }

    method Remove(key: Key) returns (was: Option<nat>)
      requires Valid()
      modifies Repr
      ensures Valid() && entries == old(entries) - {key}
      ensures was == if key in old(entries) then Some(old(entries)[key]) else None
    {
      assert Holds(Chains) && Holds(Tags);
      was := RemoveTagged(key);
      entries := entries - {key};
    }
  }
}
