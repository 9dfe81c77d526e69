/** A cache shard as a value, and what each of its operations makes of it.

    An operation ends in a new state or at an assertion of the source that fails. The books (table,
    handles, list and usage) are kept by every operation that ends; the pools are kept exactly until a
    low entry is linked while the high pool is over its cap. */
module LruShelf {
  import opened CacheTypes
  import opened LruPools
  import opened LruHandles
  import opened LruLinks

  /** What changes with the configuration methods only. */
  datatype Config = Config(capacity: nat, strict: bool, highRatio: real, lowRatio: real) {
    function HighCap(): real {
      Share(capacity, highRatio)
    }

    function LowCap(): real {
      Share(capacity, lowRatio)
    }

    predicate Valid() {
      highRatio >= 0.0 && lowRatio >= 0.0
    }

    /** Which branch LRU_Insert takes for a handle. */
    function Goes(h: Handle): Branch {
      if highRatio > 0.0 && (h.priority.High? || h.hit) then ToHigh
      else if lowRatio > 0.0 && (h.priority.High? || h.priority.Low? || h.hit) then ToLow
      else ToBottom
    }
  }

  datatype Shelf = Shelf(table: map<Key, nat>, handles: map<nat, Handle>, usage: int, nextId: nat, pools: Pools) {
    function Ledger(): Books {
      Books(table, handles, pools.list, usage, nextId)
    }
  }

  datatype Result = Ends(shelf: Shelf) | Aborts

  /** A shelf with these books and these pools, which have the same list. */
  function Of(b: Books, p: Pools): (s: Shelf)
    ensures b.list == p.list ==> s.Ledger() == b
  {
    Shelf(b.table, b.handles, b.usage, b.nextId, p)
  }

  /** The books: table, handles and usage agree, the list holds exactly what may be evicted, and the list's
      own counters are in range. Nothing here depends on the pools. */
  ghost predicate Sound(s: Shelf) {
    match s
    case Shelf(table, handles, usage, nextId, pools) =>
      Balanced(Books(table, handles, pools.list, usage, nextId)) && Ranged(pools)
  }

  // ----- the operations

  /** Evict the entry at position `k`. */
  function EvictAt(s: Shelf, k: nat): Result
    requires k < |s.pools.list| && s.pools.list[k].id in s.handles
  {
    match Unlink(s.pools, k)
    case AssertionFails => Aborts
    case Done(q) => Ends(Of(Evicted(s.Ledger(), k), q))
  }

  /** EvictFromLRU. */
  function EvictTo(s: Shelf, charge: nat, capacity: nat): Result
    decreases |s.pools.list|
  {
    if s.usage + charge <= capacity || s.pools.list == [] || s.pools.list[0].id !in s.handles then Ends(s)
    else
      match EvictAt(s, 0)
      case Aborts => Aborts
      case Ends(t) => EvictTo(t, charge, capacity)
  }

  /** EraseUnRefEntries. */
  function EvictAll(s: Shelf): Result
    decreases |s.pools.list|
  {
    if s.pools.list == [] || s.pools.list[0].id !in s.handles then Ends(s)
    else
      match EvictAt(s, 0)
      case Aborts => Aborts
      case Ends(t) => EvictAll(t)
  }

  /** Erase, and the fate of the entry that an insert replaces. */
  function DropKey(s: Shelf, key: Key): Result {
    if key !in s.table || s.table[key] !in s.handles then Ends(s)
    else
      var id := s.table[key];
      if s.handles[id].refs > 0 then Ends(Of(Changed(s.Ledger(), id, s.handles[id].(inCache := false)), s.pools))
      else if id in IdsOf(s.pools.list) then EvictAt(s, Position(s.pools.list, id))
      else Ends(s)
  }

  /** A handle that the table has lost is out of the cache, and freed if nobody refers to it. */
  function Displaced(s: Shelf, id: nat): Result
    requires id in s.handles && (s.handles[id].refs == 0 ==> id in IdsOf(s.pools.list))
  {
    var h := s.handles[id];
    if h.refs > 0 then Ends(s.(handles := s.handles[id := h.(inCache := false)]))
    else
      match Unlink(s.pools, Position(s.pools.list, id))
      case AssertionFails => Aborts
      case Done(q) => Ends(s.(handles := s.handles - {id}, usage := s.usage - h.charge, pools := q))
  }

  /** Link a handle that the table holds into the list. */
  function PutOnList(s: Shelf, c: Config, b: Books, id: nat, h: Handle): Result
    requires Ranged(s.pools)
  {
    match Link(s.pools, c.Goes(h), id, h.charge, c.HighCap(), c.LowCap())
    case AssertionFails => Aborts
    case Done(q) => Ends(Of(b.(list := q.list), q))
  }

  /** A new handle, on the list if nobody refers to it. */
  function AddHandle(s: Shelf, c: Config, h: Handle): Result
    requires Ranged(s.pools)
  {
    if h.refs > 0 then Ends(Of(Created(s.Ledger(), h), s.pools))
    else PutOnList(s, c, Created(s.Ledger(), h), s.nextId, h)
  }

  /** Whether InsertItem gives up after evicting what it can. */
  predicate GivesUp(s: Shelf, c: Config, h: Handle) {
    s.usage + h.charge > c.capacity && (c.strict || h.refs == 0)
  }

  /** InsertItem after it has evicted what it can. */
  function AfterEviction(s: Shelf, c: Config, h: Handle): Result
    requires Sound(s)
  {
    if GivesUp(s, c, h) then Ends(s)
    else
      DropKeyKeeps(s, h.key);
      match DropKey(s, h.key)
      case Aborts => Aborts
      case Ends(u) => AddHandle(u, c, h)
  }

  /** InsertItem. */
  function InsertItem(s: Shelf, c: Config, h: Handle): Result
    requires Sound(s)
  {
    EvictToKeeps(s, h.charge, c.capacity);
    match EvictTo(s, h.charge, c.capacity)
    case Aborts => Aborts
    case Ends(t) => AfterEviction(t, c, h)
  }

  /** CreateStandalone after it has evicted what it can. */
  function WithStandalone(s: Shelf, c: Config, h: Handle, allowUncharged: bool): Shelf {
    if c.strict && s.usage + h.charge > c.capacity then
      if allowUncharged then Of(Created(s.Ledger(), h.(charge := 0)), s.pools) else s
    else Of(Created(s.Ledger(), h), s.pools)
  }

  /** CreateStandalone. */
  function Standalone(s: Shelf, c: Config, h: Handle, allowUncharged: bool): Result {
    match EvictTo(s, h.charge, c.capacity)
    case Aborts => Aborts
    case Ends(t) => Ends(WithStandalone(t, c, h, allowUncharged))
  }

  /** Lookup. */
  function LookUp(s: Shelf, key: Key): Result {
    if key !in s.table || s.table[key] !in s.handles then Ends(s)
    else
      var id := s.table[key];
      if s.handles[id].refs > 0 then Ends(Of(Changed(s.Ledger(), id, Hit(s.handles[id])), s.pools))
      else if id in IdsOf(s.pools.list) then
        var k := Position(s.pools.list, id);
        match Unlink(s.pools, k)
        case AssertionFails => Aborts
        case Done(q) => Ends(Of(Pinned(s.Ledger(), k, Hit(s.handles[id])), q))
      else Ends(s)
  }

  /** One reference more or fewer, while others remain. */
  function Refer(s: Shelf, id: nat, refs: nat): Shelf
    requires id in s.handles
  {
    s.(handles := s.handles[id := s.handles[id].(refs := refs)])
  }

  /** Whether a release puts the entry back on the list. */
  predicate GoesBack(s: Shelf, c: Config, id: nat, eraseIfLast: bool) {
    id in s.handles && s.handles[id].refs == 1 && s.handles[id].inCache && s.usage <= c.capacity && !eraseIfLast
  }

  /** Release of a handle that is referred to. */
  function ReleaseOne(s: Shelf, c: Config, id: nat, eraseIfLast: bool): Result
    requires Ranged(s.pools) && id in s.handles && s.handles[id].refs > 0
  {
    if s.handles[id].refs > 1 then Ends(Refer(s, id, s.handles[id].refs - 1))
    else if GoesBack(s, c, id, eraseIfLast) then
      PutOnList(s, c, Refer(s, id, 0).Ledger(), id, s.handles[id])
    else Ends(Of(Freed(s.Ledger(), id), s.pools))
  }

  /** MaintainPoolSize for a new configuration. */
  function Retrim(s: Shelf, c: Config): Result
    requires Ranged(s.pools)
  {
    match Maintain(s.pools, c.HighCap(), c.LowCap())
    case AssertionFails => Aborts
    case Done(q) => Ends(s.(pools := q))
  }

  // ----- the books are kept

  /** Evicting an entry; from pools in order nothing fails and they stay in order. */
  lemma EvictAtKeeps(s: Shelf, k: nat)
    requires Sound(s) && k < |s.pools.list|
    ensures s.pools.list[k].id in s.handles
    ensures var r := EvictAt(s, k);
      && (r.Ends? ==> Sound(r.shelf) && r.shelf.Ledger() == Evicted(s.Ledger(), k))
      && (Segmented(s.pools) ==> r.Ends? && PoolsShrink(s, r.shelf))
  {
    ListedIsEvictable(s.pools.list, s.handles, k);
    EvictedIsBalanced(s.Ledger(), k);
    UnlinkKeeps(s.pools, k);
    if Segmented(s.pools) {
      UnlinkKeepsPools(s.pools, k);
    }
  }

  /** The pools of `t` are in order and no fuller than those of `s`. */
  ghost predicate PoolsShrink(s: Shelf, t: Shelf) {
    Segmented(t.pools) && t.pools.high <= s.pools.high && t.pools.lowUsage <= s.pools.lowUsage
  }

  /** Eviction trims the books, whatever the pools. */
  lemma {:induction false} EvictToKeeps(s: Shelf, charge: nat, capacity: nat)
    requires Sound(s)
    ensures var r := EvictTo(s, charge, capacity);
      && (r.Ends? ==> Sound(r.shelf) && r.shelf.Ledger() == Trimmed(s.Ledger(), charge, capacity))
      && (Segmented(s.pools) ==> r.Ends? && PoolsShrink(s, r.shelf))
    decreases |s.pools.list|
  {
    if s.usage + charge > capacity && s.pools.list != [] {
      EvictAtKeeps(s, 0);
      if EvictAt(s, 0).Ends? {
        EvictToKeeps(EvictAt(s, 0).shelf, charge, capacity);
      }
    }
  }

  /** Purging leaves an empty list, and touches nothing that is referred to. */
  lemma {:induction false} EvictAllKeeps(s: Shelf)
    requires Sound(s)
    ensures var r := EvictAll(s);
      && (r.Ends? ==> Sound(r.shelf) && r.shelf.pools.list == [] && Shrunk(s.Ledger(), r.shelf.Ledger()) &&
                      r.shelf.usage <= s.usage && r.shelf.nextId == s.nextId)
      && (Segmented(s.pools) ==> r.Ends? && PoolsShrink(s, r.shelf))
    decreases |s.pools.list|
  {
    if s.pools.list != [] {
      EvictAtKeeps(s, 0);
      EvictedIsShrunk(s.Ledger(), 0);
      if EvictAt(s, 0).Ends? {
        var t := EvictAt(s, 0).shelf;
        EvictAllKeeps(t);
        if EvictAll(t).Ends? {
          ShrinksOn(s.Ledger(), t.Ledger(), EvictAll(t).shelf.Ledger());
        }
      }
    }
  }

  lemma DropKeyKeeps(s: Shelf, key: Key)
    requires Sound(s)
    ensures var r := DropKey(s, key);
      && (r.Ends? ==> Sound(r.shelf) && r.shelf.Ledger() == Dropped(s.Ledger(), key) && key !in r.shelf.table &&
                      r.shelf.usage <= s.usage && r.shelf.nextId == s.nextId)
      && (Segmented(s.pools) ==> r.Ends? && PoolsShrink(s, r.shelf))
  {
    if key in s.table {
      var id := s.table[key];
      if s.handles[id].refs > 0 {
        ChangedIsBalanced(s.Ledger(), id, s.handles[id].(inCache := false));
      } else {
        assert id in EvictableIds(s.handles);
        EvictAtKeeps(s, Position(s.pools.list, id));
      }
    }
  }

  /** What the table has under a key is in the cache, covered by the usage, and listed if nobody refers to it. */
  lemma FoundIsThere(s: Shelf, key: Key)
    requires Sound(s) && key in s.table
    ensures var id := s.table[key];
      && id in s.handles && s.handles[id].inCache && s.handles[id].key == key && s.usage >= s.handles[id].charge
      && (s.handles[id].refs == 0 ==> id in IdsOf(s.pools.list))
  {
    var id := s.table[key];
    ChargeIsCovered(s.Ledger(), id);
    assert s.handles[id].refs == 0 ==> id in EvictableIds(s.handles);
  }

  /** Erase takes the entry out of the table first. */
  lemma DropDisplaces(s: Shelf, key: Key)
    requires Sound(s) && key in s.table
    ensures s.table[key] in s.handles && (s.handles[s.table[key]].refs == 0 ==> s.table[key] in IdsOf(s.pools.list))
    ensures DropKey(s, key) == Displaced(s.(table := s.table - {key}), s.table[key])
  {
    FoundIsThere(s, key);
  }

  /** `s` where the table and the usage have a new handle already. */
  function Announced(s: Shelf, h: Handle): Shelf {
    s.(table := if h.inCache then s.table[h.key := s.nextId] else s.table, usage := s.usage + h.charge)
  }

  /** An insert puts its entry into the table first, which leads to the same. */
  lemma SeatDisplaces(s: Shelf, h: Handle)
    requires Sound(s) && h.inCache && h.key in s.table
    ensures s.table[h.key] in s.handles
    ensures s.handles[s.table[h.key]].refs == 0 ==> s.table[h.key] in IdsOf(s.pools.list)
    ensures var r := Displaced(Announced(s, h), s.table[h.key]);
      match DropKey(s, h.key)
      case Aborts => r == Aborts
      case Ends(u) => r == Ends(Announced(u, h))
  {
    DropDisplaces(s, h.key);
  }

  /** A handle joins the list: the books that result are the given ones with one more entry listed. */
  lemma PutOnListLinks(s: Shelf, c: Config, b: Books, id: nat, h: Handle)
    requires Ranged(s.pools)
    ensures var r := PutOnList(s, c, b, id, h);
      r.Ends? ==> Ranged(r.shelf.pools) && r.shelf.Ledger() == b.(list := r.shelf.pools.list) &&
                  ListedAt(s, c, id, h, r.shelf)
  {
    LinkKeeps(s.pools, c.Goes(h), id, h.charge, c.HighCap(), c.LowCap());
  }

  /** `t` has the list of `s` and the handle at its place. */
  ghost predicate ListedAt(s: Shelf, c: Config, id: nat, h: Handle, t: Shelf) {
    && LinkPosition(s.pools, c.Goes(h)) <= |s.pools.list|
    && SameItems(t.pools.list,
                 Inserted(s.pools.list, LinkPosition(s.pools, c.Goes(h)), Item(id, h.charge, false, false)))
  }

  /** From pools in order, putting a handle on the list keeps them so exactly when it does not break them. */
  lemma PutOnListKeepsPools(s: Shelf, c: Config, b: Books, id: nat, h: Handle)
    requires Segmented(s.pools) && Ranged(s.pools) && c.Valid()
    ensures var r := PutOnList(s, c, b, id, h);
      && ((r.Ends? && Segmented(r.shelf.pools)) <==> !Breaks(s.pools, c.Goes(h), c.HighCap()))
      && (PoolsFit(s, c) && r.Ends? ==> PoolsFit(r.shelf, c))
  {
    ShareGrows(0, c.capacity, c.highRatio);
    ShareGrows(0, c.capacity, c.lowRatio);
    LinkKeepsPoolsExactly(s.pools, c.Goes(h), id, h.charge, c.HighCap(), c.LowCap());
    if PoolsFit(s, c) {
      LinkKeepsCaps(s.pools, c.Goes(h), id, h.charge, c.HighCap(), c.LowCap());
    }
  }

  predicate PoolsFit(s: Shelf, c: Config) {
    Within(s.pools, c.HighCap(), c.LowCap())
  }

  lemma AddHandleKeeps(s: Shelf, c: Config, h: Handle)
    requires Sound(s) && h.inCache && h.key !in s.table
    ensures var r := AddHandle(s, c, h);
      r.Ends? ==> Sound(r.shelf) && r.shelf.Ledger() == Created(s.Ledger(), h).(list := r.shelf.pools.list) &&
                  (if h.refs > 0 then r.shelf.pools == s.pools else ListedAt(s, c, s.nextId, h, r.shelf))
  {
    if h.refs > 0 {
      CreatedIsBalanced(s.Ledger(), h);
    } else {
      PutOnListLinks(s, c, Created(s.Ledger(), h), s.nextId, h);
      if AddHandle(s, c, h).Ends? {
        ListedIsBalanced(s.Ledger(), h, LinkPosition(s.pools, c.Goes(h)), AddHandle(s, c, h).shelf.pools.list);
      }
    }
  }

  /** What a release leaves: the entry freed, back on the list, or with one reference fewer. */
  ghost predicate Released(s: Shelf, c: Config, id: nat, eraseIfLast: bool, t: Shelf)
    requires id in s.handles && s.handles[id].refs > 0
  {
    match s.handles[id]
    case Handle(_, _, refs, _, _, _) =>
      if refs == 1 && !GoesBack(s, c, id, eraseIfLast) then
        t.Ledger() == Freed(s.Ledger(), id) && t.pools == s.pools
      else
        && t.Ledger() == Refer(s, id, refs - 1).Ledger().(list := t.pools.list)
        && if refs > 1 then t.pools == s.pools else ListedAt(s, c, id, s.handles[id], t)
  }

  lemma ReleaseKeeps(s: Shelf, c: Config, id: nat, eraseIfLast: bool)
    requires Sound(s) && id in s.handles && s.handles[id].refs > 0
    ensures var r := ReleaseOne(s, c, id, eraseIfLast);
      r.Ends? ==> Sound(r.shelf) && r.shelf.usage <= s.usage && Released(s, c, id, eraseIfLast, r.shelf)
  {
    var h := s.handles[id];
    if h.refs > 1 {
      ReferencedIsBalanced(s.Ledger(), id, h.(refs := h.refs - 1));
    } else if GoesBack(s, c, id, eraseIfLast) {
      PutOnListLinks(s, c, Refer(s, id, 0).Ledger(), id, h);
      var r := ReleaseOne(s, c, id, eraseIfLast);
      if r.Ends? {
        UnpinnedIsBalanced(s.Ledger(), id, h.(refs := 0), LinkPosition(s.pools, c.Goes(h)), r.shelf.pools.list);
      }
    } else {
      FreedIsBalanced(s.Ledger(), id);
      ChargesWithout(s.handles, id);
    }
  }

  /** A hit refers to the entry, which is then off the list; a miss changes nothing. */
  ghost predicate LookedUp(s: Shelf, key: Key, t: Shelf) {
    if key in s.table && s.table[key] in s.handles then
      && t.usage == s.usage && t.table == s.table && t.nextId == s.nextId
      && t.handles == s.handles[s.table[key] := Hit(s.handles[s.table[key]])]
      && t.pools.list == Without(s.pools.list, s.table[key])
    else t == s
  }

  function Without(list: seq<Item>, id: nat): seq<Item> {
    if id in IdsOf(list) then Removed(list, Position(list, id)) else list
  }

  lemma LookUpKeeps(s: Shelf, key: Key)
    requires Sound(s)
    ensures var r := LookUp(s, key);
      && (r.Ends? ==> Sound(r.shelf) && LookedUp(s, key, r.shelf))
      && (Segmented(s.pools) ==> r.Ends? && PoolsShrink(s, r.shelf))
  {
    if key in s.table {
      var id := s.table[key];
      if s.handles[id].refs > 0 {
        ChangedIsBalanced(s.Ledger(), id, Hit(s.handles[id]));
      } else {
        assert id in EvictableIds(s.handles);
        var k := Position(s.pools.list, id);
        PinnedIsBalanced(s.Ledger(), k, Hit(s.handles[id]));
        UnlinkKeeps(s.pools, k);
        if Segmented(s.pools) {
          UnlinkKeepsPools(s.pools, k);
        }
      }
    }
  }

  lemma RetrimKeeps(s: Shelf, c: Config)
    requires Sound(s) && c.Valid()
    ensures var r := Retrim(s, c);
      && (r.Ends? ==> Sound(r.shelf) && r.shelf.(pools := s.pools) == s &&
                      SameItems(s.pools.list, r.shelf.pools.list) && PoolsFit(r.shelf, c))
      && (Segmented(s.pools) ==> r.Ends? && Segmented(r.shelf.pools))
  {
    MaintainKeeps(s.pools, c.HighCap(), c.LowCap());
    var r := Retrim(s, c);
    if r.Ends? {
      SameItemsLists(s.pools.list, r.shelf.pools.list, s.handles);
    }
    if Segmented(s.pools) {
      ShareGrows(0, c.capacity, c.highRatio);
      ShareGrows(0, c.capacity, c.lowRatio);
      MaintainKeepsPools(s.pools, c.HighCap(), c.LowCap());
    }
  }
}
