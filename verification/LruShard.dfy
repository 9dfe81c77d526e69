/** LRUCacheShard: a chained hash table, an LRU list in three pools linked by pointers, reference counts and
    charges. Every method runs under the shard's mutex. A method that returns `ok` as false has met an
    assertion of the source that fails, and says nothing about the state it stops in. */
module LruShard {
  import opened Options
  import opened CacheTypes
  import opened LruPools
  import opened LruHandles
  import opened LruShelf
  import opened LruRuns
  import opened LruAnswers
  import opened LruIndex
  import opened LruStore

  class Shard {
    /** The hash table and the list. */
    const store: Store

    /** Every handle that has not been freed. */
    var handles: map<nat, Handle>
    var nextId: nat
    var usage: int

    var capacity: nat
    var strict: bool
    var highRatio: real
    var lowRatio: real

    ghost function Now(): Shelf
      reads this`handles, this`usage, this`nextId, store
    {
      Shelf(store.table, handles, usage, nextId, store.pools)
    }

    function Settings(): Config
      reads this`capacity, this`strict, this`highRatio, this`lowRatio
    {
      Config(capacity, strict, highRatio, lowRatio)
    }

    /** The stored caps are the shares of the capacity that the ratios ask for. */
    ghost predicate CapsFollow()
      reads this`capacity, this`strict, this`highRatio, this`lowRatio, store
    {
      store.highCap == Settings().HighCap() && store.lowCap == Settings().LowCap()
    }

    ghost predicate Stands()
      reads store, store.Repr
    {
      match store.pools
      case Pools(_, _, _, _, _, _) => store.Valid() && this !in store.Repr
    }

    ghost predicate Valid()
      reads this, store, store.Repr
    {
      LruRuns.Valid(Now(), Settings()) && CapsFollow() && Stands()
    }

    /** The pools are in order. */
    ghost predicate InOrder()
      reads store
    {
      Segmented(store.pools)
    }

    /** The operation ended as `r` says. */
    ghost predicate Follows(ok: bool, r: Result)
      reads this`handles, this`usage, this`nextId, store, store.Repr
    {
      match r
      case Aborts => !ok
      case Ends(s) => ok && Now() == s && Stands()
    }

    /** The store is made of what it was made of and of new nodes. */
    twostate predicate NewParts()
      reads store
    {
      fresh(store.Repr - old(store.Repr))
    }

    /** And it has the same caps. */
    twostate predicate Kept()
      reads store
    {
      NewParts() && store.highCap == old(store.highCap) && store.lowCap == old(store.lowCap)
    }

    constructor (capacity: nat, strict: bool, highRatio: Ratio, lowRatio: Ratio, maxBits: nat, hash: Key -> Hash)
      ensures Valid() && InOrder() && PoolsFit(Now(), Settings()) && fresh(store.Repr)
      ensures Now() == Shelf(map[], map[], 0, 0, Pools([], 0, 0, 0, 0, 0))
      ensures Settings() == Config(capacity, strict, highRatio, lowRatio)
    {
      this.capacity, this.strict, this.highRatio, this.lowRatio := capacity, strict, highRatio, lowRatio;
      store := new Store(Share(capacity, highRatio), Share(capacity, lowRatio), maxBits, hash);
      handles, nextId, usage := map[], 0, 0;
      ShareGrows(0, capacity, highRatio);
      ShareGrows(0, capacity, lowRatio);
    }

    // ----- evicting

    /** Takes the oldest entry off the list and out of the shard. */
    method Evict(id: nat) returns (ok: bool)
      requires Sound(Now()) && Stands() && store.pools.list != [] && store.pools.list[0].id == id
      modifies this`handles, this`usage, store.Repr
      ensures id in old(handles) && Follows(ok, EvictAt(old(Now()), 0)) && (ok ==> Sound(Now()) && Kept())
    {
      EvictAtKeeps(Now(), 0);
      ListedIsEvictable(store.pools.list, handles, 0);
      assert Evictable(handles[id]);
      ChargeIsCovered(Now().Ledger(), id);
      ok := store.LruRemove(id, 0);
      if ok {
        var _ := store.Remove(handles[id].key);
        assert usage >= handles[id].charge;
        usage := usage - handles[id].charge;
        handles := handles - {id};
      }
    }

    /** One turn of EvictFromLRU. */
    method EvictNext(id: nat, ghost charge: nat) returns (ok: bool, next: Option<nat>)
      requires Sound(Now()) && Stands() && store.pools.list != [] && store.pools.list[0].id == id
      requires usage + charge > capacity
      modifies this`handles, this`usage, store.Repr
      ensures !ok ==> EvictTo(old(Now()), charge, capacity) == Aborts
      ensures ok ==> Sound(Now()) && Stands() && Kept() && |store.pools.list| < old(|store.pools.list|)
      ensures ok ==> EvictTo(Now(), charge, capacity) == EvictTo(old(Now()), charge, capacity)
      ensures ok ==> next == if store.pools.list == [] then None else Some(store.pools.list[0].id)
    {
      next := None;
      ok := Evict(id);
      if ok {
        next := store.Oldest();
      }
    }

    /** EvictFromLRU. */
    method EvictFromLru(charge: nat) returns (ok: bool)
      requires Sound(Now()) && Stands()
      modifies this`handles, this`usage, store.Repr
      ensures Follows(ok, EvictTo(old(Now()), charge, capacity)) && (ok ==> Kept())
      ensures ok ==> Sound(Now()) && Now().Ledger() == Trimmed(old(Now().Ledger()), charge, capacity)
    {
      EvictToKeeps(Now(), charge, capacity);
      ok := EvictUntil(charge);
    }

    method EvictUntil(charge: nat) returns (ok: bool)
      requires Sound(Now()) && Stands()
      modifies this`handles, this`usage, store.Repr
      ensures Follows(ok, EvictTo(old(Now()), charge, capacity)) && (ok ==> Kept())
    {
      ghost var goal := EvictTo(Now(), charge, capacity);
      var oldest := store.Oldest();
      while usage + charge > capacity && oldest != None
        invariant Sound(Now()) && Stands() && Kept() && EvictTo(Now(), charge, capacity) == goal
        invariant oldest == if store.pools.list == [] then None else Some(store.pools.list[0].id)
        decreases |store.pools.list|
      {
        ok, oldest := EvictNext(oldest.value, charge);
        if !ok {
          return;
        }
      }
      ok := true;
    }

    /** EraseUnRefEntries: the whole list goes, and every handle that is referred to stays as it is. */
    method EraseUnRefEntries() returns (ok: bool)
      requires Valid()
      modifies this`handles, this`usage, store.Repr
      ensures ok ==> Valid() && Kept() && store.pools.list == [] && Shrunk(old(Now().Ledger()), Now().Ledger())
      ensures ok ==> forall id :: id in handles ==> handles[id].refs > 0
      ensures old(InOrder()) ==> ok && InOrder()
    {
      EvictAllKeeps(Now());
      ok := EmptyList();
      if ok {
        EmptyListMeansReferenced();
      }
    }

    /** One turn of EraseUnRefEntries. */
    method PurgeNext(id: nat) returns (ok: bool, next: Option<nat>)
      requires Sound(Now()) && Stands() && store.pools.list != [] && store.pools.list[0].id == id
      modifies this`handles, this`usage, store.Repr
      ensures !ok ==> EvictAll(old(Now())) == Aborts
      ensures ok ==> Sound(Now()) && Stands() && Kept() && |store.pools.list| < old(|store.pools.list|)
      ensures ok ==> EvictAll(Now()) == EvictAll(old(Now()))
      ensures ok ==> next == if store.pools.list == [] then None else Some(store.pools.list[0].id)
    {
      next := None;
      ok := Evict(id);
      if ok {
        next := store.Oldest();
      }
    }

    method EmptyList() returns (ok: bool)
      requires Sound(Now()) && Stands()
      modifies this`handles, this`usage, store.Repr
      ensures Follows(ok, EvictAll(old(Now()))) && (ok ==> Kept())
    {
      ghost var goal := EvictAll(Now());
      var oldest := store.Oldest();
      while oldest != None
        invariant Sound(Now()) && Stands() && Kept() && EvictAll(Now()) == goal
        invariant oldest == if store.pools.list == [] then None else Some(store.pools.list[0].id)
        decreases |store.pools.list|
      {
        ok, oldest := PurgeNext(oldest.value);
        if !ok {
          return;
        }
      }
      ok := true;
    }

    lemma EmptyListMeansReferenced()
      requires Sound(Now()) && store.pools.list == []
      ensures forall id :: id in handles ==> handles[id].refs > 0
    {
      forall id | id in handles
        ensures handles[id].refs > 0
      {
        assert IdsOf(store.pools.list) == {};
        assert id !in EvictableIds(handles);
      }
    }

    // ----- looking up, referring and releasing

    /** Lookup: a hit takes the entry off the list if nobody refers to it, and refers to it. */
    method Lookup(key: Key) returns (ok: bool, found: Option<nat>)
      requires Valid()
      modifies this`handles, store.Repr
      ensures ok ==> Valid() && Kept() && LookedUp(old(Now()), key, Now())
      ensures ok ==> LookupAnswer(old(Now()), key, found, Now())
      ensures old(InOrder()) ==> ok && InOrder()
    {
      LookUpKeeps(Now(), key);
      LookupAnswers(Now(), key);
      ok, found := FindAndPin(key);
    }

    method FindAndPin(key: Key) returns (ok: bool, found: Option<nat>)
      requires Sound(Now()) && Stands()
      modifies this`handles, store.Repr
      ensures Follows(ok, LookUp(old(Now()), key)) && (ok ==> Kept())
      ensures ok ==> found == if key in old(store.table) then Some(old(store.table)[key]) else None
    {
      found := store.Lookup(key);
      if found == None {
        return true, None;
      }
      var id := found.value;
      assert handles[id].inCache;
      if handles[id].refs == 0 {
        assert id in EvictableIds(handles);
        ok := store.LruRemove(id, Position(store.pools.list, id));
        if !ok {
          return;
        }
      }
      handles := handles[id := Hit(handles[id])];
      ok := true;
    }

    /** Ref: one more reference to a handle that is referred to already. */
    method Ref(id: nat)
      requires Valid() && id in handles && handles[id].refs > 0
      modifies this`handles
      ensures Valid() && Now() == Refer(old(Now()), id, old(handles)[id].refs + 1)
    {
      var h := handles[id].(refs := handles[id].refs + 1);
      ReferencedIsBalanced(Now().Ledger(), id, h);
      handles := handles[id := h];
    }

    /** Release: the last reference sends an entry back to the list, or frees it when it is out of the
        table, the shard is over capacity or the caller asks for it. */
    method Release(id: nat, eraseIfLast: bool) returns (ok: bool, freed: bool)
      requires Valid() && id in handles && handles[id].refs > 0
      modifies this`handles, this`usage, store.Repr
      ensures Follows(ok, ReleaseOne(old(Now()), Settings(), id, eraseIfLast))
      ensures ok ==> Valid() && Kept() && Released(old(Now()), Settings(), id, eraseIfLast, Now())
      ensures freed == (old(handles)[id].refs == 1 && !GoesBack(old(Now()), Settings(), id, eraseIfLast))
      ensures ok ==> ReleaseAnswer(old(Now()), Settings(), id, eraseIfLast, freed, Now())
    {
      ReleaseAnswers(Now(), Settings(), id, eraseIfLast);
      ReleaseKeepsBooks(Now(), Settings(), id, eraseIfLast);
      ok, freed := DropReference(id, eraseIfLast);
    }

    method DropReference(id: nat, eraseIfLast: bool) returns (ok: bool, freed: bool)
      requires Valid() && id in handles && handles[id].refs > 0
      modifies this`handles, this`usage, store.Repr
      ensures Follows(ok, ReleaseOne(old(Now()), Settings(), id, eraseIfLast)) && (ok ==> Kept())
      ensures freed == (old(handles)[id].refs == 1 && !GoesBack(old(Now()), Settings(), id, eraseIfLast))
    {
      var h := handles[id];
      if h.refs > 1 {
        handles := handles[id := h.(refs := h.refs - 1)];
        return true, false;
      }
      ChargeIsCovered(Now().Ledger(), id);
      if h.inCache && !(usage > capacity || eraseIfLast) {
        ReferencedIsNotListed(Now().Ledger(), id);
        ok := store.LruInsert(id, h.charge, Settings().Goes(h));
        handles := handles[id := h.(refs := 0)];
        return ok, false;
      }
      if h.inCache {
        assert store.pools.list == [] || eraseIfLast;
        var _ := store.Remove(h.key);
      }
      assert usage >= h.charge;
      usage := usage - h.charge;
      handles := handles - {id};
      return true, true;
    }

    /** The handle that the table has just lost is out of the cache, and freed if nobody refers to it. */
    method Displace(id: nat) returns (ok: bool)
      requires Stands() && id in handles && handles[id].inCache && usage >= handles[id].charge
      requires handles[id].refs == 0 ==> id in IdsOf(store.pools.list)
      modifies this`handles, this`usage, store.Repr
      ensures Follows(ok, Displaced(old(Now()), id)) && (ok ==> Kept())
    {
      if handles[id].refs > 0 {
        handles := handles[id := handles[id].(inCache := false)];
        return true;
      }
      ok := store.LruRemove(id, Position(store.pools.list, id));
      if ok {
        usage := usage - handles[id].charge;
        handles := handles - {id};
      }
    }

    /** Erase: out of the table at once, and freed now or when the last reference goes. */
    method Erase(key: Key) returns (ok: bool)
      requires Valid()
      modifies this`handles, this`usage, store.Repr
      ensures ok ==> Valid() && Kept() && Now().Ledger() == Dropped(old(Now().Ledger()), key) && key !in store.table
      ensures ok ==> EraseAnswer(old(Now()), key, Now())
      ensures old(InOrder()) ==> ok && InOrder()
    {
      EraseAnswers(Now(), key);
      DropKeyKeeps(Now(), key);
      if Now().pools.list == [] {
        DroppedFromNothing(Now().Ledger(), key);
      }
      ok := TakeOut(key);
    }

    method TakeOut(key: Key) returns (ok: bool)
      requires Sound(Now()) && Stands()
      modifies this`handles, this`usage, store.Repr
      ensures Follows(ok, DropKey(old(Now()), key)) && (ok ==> Kept())
    {
      if key in store.table {
        FoundIsThere(Now(), key);
        DropDisplaces(Now(), key);
      } else {
        assert store.table - {key} == store.table;
      }
      var was := store.Remove(key);
      if was == None {
        return true;
      }
      ok := Displace(was.value);
    }

    // ----- inserting

    /** Insert: evict to make room, then insert, or give up when the entry does not fit and either the
        limit is strict or the caller wants no handle. */
    method Insert(key: Key, charge: nat, priority: Priority, wantHandle: bool)
      returns (ok: bool, status: Status, handle: Option<nat>)
      requires Valid()
      modifies this`handles, this`usage, this`nextId, store.Repr
      ensures Follows(ok, InsertItem(old(Now()), Settings(), Fresh(key, charge, priority, wantHandle)))
      ensures ok ==> Valid() && Kept() && (strict && old(usage) <= capacity ==> usage <= capacity)
      ensures ok ==>
        InsertMeans(Trimmed(old(Now().Ledger()), charge, capacity), Settings(),
                    Fresh(key, charge, priority, wantHandle), Now())
      ensures ok ==> InsertReports(Trimmed(old(Now().Ledger()), charge, capacity), key, wantHandle, status, handle)
      ensures ok ==> InsertAnswer(old(Now()), Settings(), key, charge, priority, wantHandle, Now())
    {
      var h := Fresh(key, charge, priority, wantHandle);
      InsertAnswers(Now(), Settings(), key, charge, priority, wantHandle);
      InsertKeeps(Now(), Settings(), h);
      ok, status, handle := InsertEntry(h);
    }

    method InsertEntry(h: Handle) returns (ok: bool, status: Status, handle: Option<nat>)
      requires Sound(Now()) && CapsFollow() && Stands() && h.inCache && h.refs <= 1
      modifies this`handles, this`usage, this`nextId, store.Repr
      ensures Follows(ok, InsertItem(old(Now()), Settings(), h)) && (ok ==> Kept())
      ensures ok ==>
        InsertReports(Trimmed(old(Now().Ledger()), h.charge, capacity), h.key, h.refs == 1, status, handle)
    {
      ok := EvictFromLru(h.charge);
      if !ok {
        return false, Ok, None;
      }
      ok, status, handle := InsertIfRoom(h);
    }

    /** What Insert reports: a handle that is new, and whether it replaced an entry of the books `b`. */
    ghost predicate InsertReports(b: Books, key: Key, wantHandle: bool, status: Status, handle: Option<nat>)
      reads this`nextId
    {
      if nextId == b.nextId then handle == None && status == (if wantHandle then MemoryLimit else Ok)
      else
        && handle == (if wantHandle then Some(b.nextId) else None)
        && status == if key in b.table then OkOverwritten else Ok
    }

    /** What Insert does once there is nothing more to evict. */
    method InsertIfRoom(h: Handle) returns (ok: bool, status: Status, handle: Option<nat>)
      requires Sound(Now()) && CapsFollow() && Stands() && h.inCache && h.refs <= 1
      modifies this`handles, this`usage, this`nextId, store.Repr
      ensures Follows(ok, AfterEviction(old(Now()), Settings(), h)) && (ok ==> Kept())
      ensures ok ==> InsertReports(old(Now().Ledger()), h.key, h.refs == 1, status, handle)
    {
      if usage + h.charge > capacity && (strict || h.refs == 0) {
        return true, if h.refs == 1 then MemoryLimit else Ok, None;
      }
      DropKeyKeeps(Now(), h.key);
      ok, status, handle := Replace(h);
    }

    method Replace(h: Handle) returns (ok: bool, status: Status, handle: Option<nat>)
      requires Sound(Now()) && CapsFollow() && Stands() && h.inCache && h.refs <= 1
      modifies this`handles, this`usage, this`nextId, store.Repr
      ensures match DropKey(old(Now()), h.key)
              case Aborts => !ok
              case Ends(u) => Ranged(u.pools) && Follows(ok, AddHandle(u, Settings(), h))
      ensures ok ==> Kept() && InsertReports(old(Now().Ledger()), h.key, h.refs == 1, status, handle)
    {
      DropKeyKeeps(Now(), h.key);
      ghost var dropped := DropKey(Now(), h.key);
      if dropped.Ends? {
        NewIdIsNotListed(dropped.shelf.Ledger());
      }
      var id := nextId;
      handle := if h.refs == 1 then Some(id) else None;
      ok, status := Seat(h);
      if ok {
        ok := Add(h, dropped.shelf);
      }
    }

    /** The table takes the new handle for whatever it had under the key. */
    method Seat(h: Handle) returns (ok: bool, status: Status)
      requires Sound(Now()) && Stands() && h.inCache
      modifies this`handles, this`usage, store.Repr
      ensures match DropKey(old(Now()), h.key)
              case Aborts => !ok
              case Ends(u) => ok && Stands() && Now() == Announced(u, h)
      ensures status == if h.key in old(store.table) then OkOverwritten else Ok
      ensures ok ==> Kept()
    {
      if h.key in store.table {
        FoundIsThere(Now(), h.key);
        SeatDisplaces(Now(), h);
      }
      var was := store.Insert(h.key, nextId);
      usage := usage + h.charge;
      assert Now() == Announced(old(Now()), h);
      if was == None {
        return true, Ok;
      }
      status := OkOverwritten;
      ok := Displace(was.value);
    }

    /** A new handle, on the list if nobody refers to it. */
    method Add(h: Handle, ghost u: Shelf) returns (ok: bool)
      requires Stands() && CapsFollow() && Ranged(u.pools) && u.nextId !in IdsOf(u.pools.list)
      requires Now() == Announced(u, h)
      modifies this`handles, this`nextId, store.Repr
      ensures Follows(ok, AddHandle(u, Settings(), h)) && nextId == u.nextId + 1 && (ok ==> Kept())
    {
      var id := nextId;
      nextId := nextId + 1;
      handles := handles[id := h];
      ok := true;
      if h.refs == 0 {
        ok := store.LruInsert(id, h.charge, Settings().Goes(h));
      }
    }

    /** CreateStandalone: a handle outside the table, charged if it fits or the limit is not strict. Every
        handle that is referred to stays as it is. */
    method CreateStandalone(key: Key, charge: nat, allowUncharged: bool) returns (ok: bool, handle: Option<nat>)
      requires Valid()
      modifies this`handles, this`usage, this`nextId, store.Repr
      ensures Follows(ok, Standalone(old(Now()), Settings(), Loose(key, charge), allowUncharged))
      ensures ok ==> Valid() && Kept() && (strict && old(usage) <= capacity ==> usage <= capacity)
      ensures ok ==>
        StandaloneMeans(Trimmed(old(Now().Ledger()), charge, capacity), Settings(), Loose(key, charge),
                        allowUncharged, Now())
      ensures ok ==> handle == if nextId == old(nextId) then None else Some(old(nextId))
      ensures ok ==> KeepsReferenced(old(Now()), Now())
      ensures ok ==> StandaloneAnswer(old(Now()), Settings(), key, charge, allowUncharged, Now())
    {
      var h := Loose(key, charge);
      StandaloneAnswers(Now(), Settings(), key, charge, allowUncharged);
      StandaloneKeeps(Now(), Settings(), h, allowUncharged);
      ok, handle := AddStandalone(h, allowUncharged);
    }

    method AddStandalone(h: Handle, allowUncharged: bool) returns (ok: bool, handle: Option<nat>)
      requires Sound(Now()) && CapsFollow() && Stands() && !h.inCache && h.refs > 0
      modifies this`handles, this`usage, this`nextId, store.Repr
      ensures Follows(ok, Standalone(old(Now()), Settings(), h, allowUncharged)) && (ok ==> Kept())
      ensures ok ==> handle == if nextId == old(nextId) then None else Some(old(nextId))
    {
      ok := EvictFromLru(h.charge);
      if !ok {
        return false, None;
      }
      NewIdIsNotListed(Now().Ledger());
      handle := AddIfAllowed(h, allowUncharged);
    }

    method AddIfAllowed(h: Handle, allowUncharged: bool) returns (handle: Option<nat>)
      requires Stands() && CapsFollow() && Ranged(store.pools) && nextId !in IdsOf(store.pools.list)
      requires !h.inCache && h.refs > 0
      modifies this`handles, this`usage, this`nextId, store.Repr
      ensures Now() == WithStandalone(old(Now()), Settings(), h, allowUncharged) && Stands() && Kept()
      ensures handle == if nextId == old(nextId) then None else Some(old(nextId))
    {
      var charged := h;
      ghost var before := Now();
      if strict && usage + h.charge > capacity {
        if !allowUncharged {
          return None;
        }
        charged := h.(charge := 0);
      } else {
        usage := usage + h.charge;
      }
      var id := nextId;
      var _ := Add(charged, before);
      return Some(id);
    }

    // ----- configuration

    /** SetCapacity evicts what no longer fits, and does not trim the pools. */
    method SetCapacity(newCapacity: nat) returns (ok: bool)
      requires Valid()
      modifies this`capacity, this`handles, this`usage, store.Repr
      ensures Settings() == old(Settings()).(capacity := newCapacity)
      ensures ok ==> Valid() && NewParts() && Now().Ledger() == Trimmed(old(Now().Ledger()), 0, newCapacity)
      ensures ok ==> usage <= capacity || forall id :: id in handles ==> handles[id].refs > 0
      ensures old(InOrder()) ==> ok && InOrder()
    {
      EvictToKeeps(Now(), 0, newCapacity);
      TrimmedIsBalanced(Now().Ledger(), 0, newCapacity);
      ok := Resize(newCapacity);
      if ok && usage > capacity {
        EmptyListMeansReferenced();
      }
    }

    method Resize(newCapacity: nat) returns (ok: bool)
      requires Sound(Now()) && Stands()
      modifies this`capacity, this`handles, this`usage, store.Repr
      ensures Settings() == old(Settings()).(capacity := newCapacity)
      ensures Follows(ok, EvictTo(old(Now()), 0, newCapacity)) && (ok ==> CapsFollow() && NewParts())
    {
      capacity := newCapacity;
      store.SetCaps(Share(capacity, highRatio), Share(capacity, lowRatio));
      ok := EvictFromLru(0);
    }

    method SetHighPriorityPoolRatio(ratio: Ratio) returns (ok: bool)
      requires Valid()
      modifies this`highRatio, store.Repr
      ensures Settings() == old(Settings()).(highRatio := ratio)
      ensures Follows(ok, Retrim(old(Now()), Settings()))
      ensures ok ==> Valid() && NewParts() && SameItems(old(store.pools.list), store.pools.list)
      ensures ok ==> PoolsFit(Now(), Settings())
      ensures old(InOrder()) ==> ok && InOrder()
    {
      highRatio := ratio;
      RetrimKeeps(Now(), Settings());
      ok := ApplyCaps();
    }

    method SetLowPriorityPoolRatio(ratio: Ratio) returns (ok: bool)
      requires Valid()
      modifies this`lowRatio, store.Repr
      ensures Settings() == old(Settings()).(lowRatio := ratio)
      ensures Follows(ok, Retrim(old(Now()), Settings()))
      ensures ok ==> Valid() && NewParts() && SameItems(old(store.pools.list), store.pools.list)
      ensures ok ==> PoolsFit(Now(), Settings())
      ensures old(InOrder()) ==> ok && InOrder()
    {
      lowRatio := ratio;
      RetrimKeeps(Now(), Settings());
      ok := ApplyCaps();
    }

    /** The caps follow the ratios, and the pools follow the caps. */
    method ApplyCaps() returns (ok: bool)
      requires Stands() && Ranged(store.pools)
      modifies store.Repr
      ensures Follows(ok, Retrim(old(Now()), Settings())) && (ok ==> CapsFollow() && NewParts())
    {
      store.SetCaps(Share(capacity, highRatio), Share(capacity, lowRatio));
      ok := store.MaintainPoolSize();
    }

    method SetStrictCapacityLimit(newStrict: bool)
      requires Valid()
      modifies this`strict
      ensures Valid() && Settings() == old(Settings()).(strict := newStrict) && Now() == old(Now())
    {
      strict := newStrict;
    }

    /** GetPinnedUsage: what the handles that are referred to charge. */
    method GetPinnedUsage() returns (pinned: int)
      requires Valid()
      ensures pinned == Charges(Referenced(handles))
    {
      ListedAndPinned(Now().Ledger());
      var lruUsage := store.LruUsage();
      assert usage >= lruUsage;
      pinned := usage - lruUsage;
    }

    // ----- runs

    /** Any run of operations either meets a failing assertion of the source or keeps the books. A run that
        never lowers the capacity meets none, keeps the pools in order and within their caps, and while
        the limit stays strict keeps the usage within the capacity. */
    method Run(ops: seq<Op>) returns (ok: bool)
      requires Valid()
      modifies this, store.Repr
      ensures ok ==> Valid() && RunAll(old(Now()), old(Settings()), ops) == RunEnds(Now(), Settings())
      ensures !ok ==> RunAll(old(Now()), old(Settings()), ops).RunAborts?
      ensures old(InOrder() && PoolsFit(Now(), Settings())) && NeverLowers(old(Settings()), ops) ==>
        ok && InOrder() && PoolsFit(Now(), Settings())
      ensures ok && old(usage <= capacity) && NeverLowers(old(Settings()), ops) && StaysStrict(old(Settings()), ops) ==>
        usage <= capacity
    {
      ghost var goal := RunAll(Now(), Settings(), ops);
      if InOrder() && PoolsFit(Now(), Settings()) && NeverLowers(Settings(), ops) {
        RaisingRunKeepsPools(Now(), Settings(), ops);
      }
      if usage <= capacity && NeverLowers(Settings(), ops) && StaysStrict(Settings(), ops) {
        StrictRunStaysWithin(Now(), Settings(), ops);
      }
      for i := 0 to |ops|
        invariant Valid() && NewParts() && RunAll(Now(), Settings(), ops[i..]) == goal
      {
        assert ops[i..][0] == ops[i] && ops[i..][1..] == ops[i + 1..];
        ok := Perform(ops[i]);
        if !ok {
          return;
        }
      }
      assert ops[|ops|..] == [];
      ok := true;
    }

    method Perform(op: Op) returns (ok: bool)
      requires Valid()
      modifies this, store.Repr
      ensures Follows(ok, LruRuns.Apply(old(Now()), old(Settings()), op))
      ensures ok ==> Valid() && NewParts() && Settings() == Reconfigured(old(Settings()), op)
    {
      ApplyKeepsBooks(Now(), Settings(), op);
      if op.DoSetCapacity? || op.DoSetHighRatio? || op.DoSetLowRatio? || op.DoSetStrict? {
        ok := PerformSetting(op);
      } else {
        ok := PerformUse(op);
      }
    }

    method PerformSetting(op: Op) returns (ok: bool)
      requires Valid() && (op.DoSetCapacity? || op.DoSetHighRatio? || op.DoSetLowRatio? || op.DoSetStrict?)
      modifies this, store.Repr
      ensures Follows(ok, LruRuns.Apply(old(Now()), old(Settings()), op))
      ensures Settings() == Reconfigured(old(Settings()), op) && (ok ==> CapsFollow() && NewParts())
    {
      ok := true;
      match op
      case DoSetCapacity(n) => ok := Resize(n);
      case DoSetHighRatio(r) => ok := SetHighPriorityPoolRatio(r);
      case DoSetLowRatio(r) => ok := SetLowPriorityPoolRatio(r);
      case DoSetStrict(b) => SetStrictCapacityLimit(b);
    }

    method PerformUse(op: Op) returns (ok: bool)
      requires Valid() && !op.DoSetCapacity? && !op.DoSetHighRatio? && !op.DoSetLowRatio? && !op.DoSetStrict?
      modifies this`handles, this`usage, this`nextId, store.Repr
      ensures Follows(ok, LruRuns.Apply(old(Now()), Settings(), op)) && (ok ==> Kept())
    {
      ok := true;
      match op
      case DoInsert(key, charge, priority, wantHandle) =>
        var done, _, _ := InsertEntry(Fresh(key, charge, priority, wantHandle));
        ok := done;
      case DoLookup(key) =>
        var done, _ := FindAndPin(key);
        ok := done;
      case DoErase(key) => ok := TakeOut(key);
      case DoStandalone(key, charge, allowUncharged) =>
        var done, _ := AddStandalone(Loose(key, charge), allowUncharged);
        ok := done;
      case DoRef(id) =>
        if id in handles && handles[id].refs > 0 {
          Ref(id);
        }
      case DoRelease(id, eraseIfLast) =>
        if id in handles && handles[id].refs > 0 {
          var done, _ := DropReference(id, eraseIfLast);
          ok := done;
        }
      case DoPurge => ok := EmptyList();
    }
  }
}
