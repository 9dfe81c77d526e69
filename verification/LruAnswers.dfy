/** What the operations of a cache shard answer and leave, in terms of the fields of the shard alone: who is freed,
    who stays, where a handle joins the list, and what is charged. */
module LruAnswers {
  import opened Options
  import opened CacheTypes
  import opened LruPools
  import opened LruHandles
  import opened LruLinks
  import opened LruShelf
  import opened LruRuns

  /** Where a handle joins a list with these pool pointers: at the new end if it goes to the high pool, after the low
      pointer if it goes to the low one, else after the bottom pointer. A hit counts like a high priority. */
  predicate JoinsAt(p: Pools, c: Config, priority: Priority, hit: bool, id: nat, list: seq<Item>) {
    && |list| == |p.list| + 1 && p.low < |list| && p.bottom < |list|
    && (c.highRatio > 0.0 && (priority.High? || hit) ==> list[|p.list|].id == id)
    && (c.highRatio <= 0.0 && c.lowRatio > 0.0 && (!priority.Bottom? || hit) ==> list[p.low].id == id)
    && (c.highRatio > 0.0 && c.lowRatio > 0.0 && priority.Low? && !hit ==> list[p.low].id == id)
    && (c.highRatio <= 0.0 && c.lowRatio <= 0.0 ==> list[p.bottom].id == id)
    && (c.lowRatio <= 0.0 && !priority.High? && !hit ==> list[p.bottom].id == id)
    && (priority.Bottom? && !hit ==> list[p.bottom].id == id)
  }

  lemma ListedJoins(s: Shelf, c: Config, id: nat, h: Handle, t: Shelf)
    requires Ranged(s.pools) && ListedAt(s, c, id, h, t)
    ensures JoinsAt(s.pools, c, h.priority, h.hit, id, t.pools.list)
    ensures IdsOf(t.pools.list) == IdsOf(s.pools.list) + {id}
  {
    var k := LinkPosition(s.pools, c.Goes(h));
    var more := Inserted(s.pools.list, k, Item(id, h.charge, false, false));
    assert t.pools.list[k].id == more[k].id == id;
    SameIds(t.pools.list, more);
    InsertedIds(s.pools.list, k, Item(id, h.charge, false, false));
  }

  lemma SameIds(xs: seq<Item>, ys: seq<Item>)
    requires SameItems(xs, ys)
    ensures IdsOf(xs) == IdsOf(ys)
  {
    forall id
      ensures id in IdsOf(xs) <==> id in IdsOf(ys)
    {
      if id in IdsOf(xs) {
        var i :| 0 <= i < |xs| && xs[i].id == id;
        assert ys[i].id == id;
      }
      if id in IdsOf(ys) {
        var i :| 0 <= i < |ys| && ys[i].id == id;
        assert xs[i].id == id;
      }
    }
  }

  lemma InsertedIds(list: seq<Item>, k: nat, e: Item)
    requires k <= |list|
    ensures IdsOf(Inserted(list, k, e)) == IdsOf(list) + {e.id}
  {
    var more := Inserted(list, k, e);
    assert more[k] == e;
    forall i | 0 <= i < |list|
      ensures list[i].id in IdsOf(more)
    {
      assert more[if i < k then i else i + 1] == list[i];
    }
  }

  // ----- release

  /** With other references left, there is one fewer. The last one frees the handle exactly if the caller asks for
      it, the table does not have it or the usage is above the capacity; then it is gone with its charge and, if it
      is there, its place in the table. Otherwise the entry stays in the table and joins the list. */
  ghost predicate ReleaseAnswer(s: Shelf, c: Config, id: nat, eraseIfLast: bool, freed: bool, t: Shelf)
    requires id in s.handles
  {
    var h := s.handles[id];
    && t.nextId == s.nextId
    && (h.refs > 1 ==> !freed && t == s.(handles := s.handles[id := h.(refs := h.refs - 1)]))
    && (h.refs == 1 ==> (freed <==> eraseIfLast || !h.inCache || s.usage > c.capacity))
    && (freed ==>
          && t.handles == s.handles - {id} && t.usage == s.usage - h.charge && t.pools == s.pools
          && t.table == if h.inCache then s.table - {h.key} else s.table)
    && (h.refs == 1 && !freed ==>
          && t.handles == s.handles[id := h.(refs := 0)] && t.usage == s.usage && t.table == s.table
          && h.key in t.table && t.table[h.key] == id
          && IdsOf(t.pools.list) == IdsOf(s.pools.list) + {id}
          && JoinsAt(s.pools, c, h.priority, h.hit, id, t.pools.list))
  }

  lemma ReleaseAnswers(s: Shelf, c: Config, id: nat, eraseIfLast: bool)
    requires Sound(s) && id in s.handles && s.handles[id].refs > 0
    ensures var r := ReleaseOne(s, c, id, eraseIfLast);
      r.Ends? ==>
        ReleaseAnswer(s, c, id, eraseIfLast, s.handles[id].refs == 1 && !GoesBack(s, c, id, eraseIfLast), r.shelf)
  {
    var h := s.handles[id];
    var r := ReleaseOne(s, c, id, eraseIfLast);
    if GoesBack(s, c, id, eraseIfLast) && r.Ends? {
      PutOnListLinks(s, c, Refer(s, id, 0).Ledger(), id, h);
      ListedJoins(s, c, id, h, r.shelf);
    }
  }

  // ----- lookup

  /** A hit finds what the table has under the key; the handle has one more reference, is marked as hit and is not
      on the list. A miss changes nothing. */
  ghost predicate LookupAnswer(s: Shelf, key: Key, found: Option<nat>, t: Shelf) {
    if key !in s.table then found == None && t == s
    else
      var id := s.table[key];
      && found == Some(id) && id in s.handles && t.table == s.table && t.usage == s.usage && t.nextId == s.nextId
      && t.handles == s.handles[id := s.handles[id].(refs := s.handles[id].refs + 1, hit := true)]
      && IdsOf(t.pools.list) == IdsOf(s.pools.list) - {id}
  }

  lemma LookupAnswers(s: Shelf, key: Key)
    requires Sound(s)
    ensures var r := LookUp(s, key);
      r.Ends? ==> LookupAnswer(s, key, if key in s.table then Some(s.table[key]) else None, r.shelf)
  {
    LookUpKeeps(s, key);
    if key in s.table {
      var id := s.table[key];
      if id in IdsOf(s.pools.list) {
        IdsWithout(s.pools.list, Position(s.pools.list, id));
      }
    }
  }

  lemma IdsWithout(list: seq<Item>, k: nat)
    requires NoDuplicates(list) && k < |list|
    ensures IdsOf(Removed(list, k)) == IdsOf(list) - {list[k].id}
  {
    var r := Removed(list, k);
    forall id | id in IdsOf(list) - {list[k].id}
      ensures id in IdsOf(r)
    {
      var i :| 0 <= i < |list| && list[i].id == id;
      assert r[if i < k then i else i - 1] == list[i];
    }
    forall i | 0 <= i < |r|
      ensures r[i].id in IdsOf(list) && r[i].id != list[k].id
    {
      assert r[i] == list[if i < k then i else i + 1];
    }
  }

  /** An entry that was looked up goes back to the new end of the list if there is a high pool, and else after the low
      pointer if there is a low one, whatever its priority. */
  lemma HitGoesBackUp(s: Shelf, c: Config, key: Key)
    requires Valid(s, c) && key in s.table && LookUp(s, key).Ends? && s.usage <= c.capacity
    requires s.table[key] in s.handles && s.handles[s.table[key]].refs == 0
    ensures var id, t := s.table[key], LookUp(s, key).shelf;
      && Sound(t) && id in t.handles && t.handles[id].refs == 1
      && var r := ReleaseOne(t, c, id, false);
         r.Ends? ==>
           && id in r.shelf.handles && r.shelf.pools.list != []
           && (c.highRatio > 0.0 ==> r.shelf.pools.list[|r.shelf.pools.list| - 1].id == id)
           && (c.highRatio <= 0.0 < c.lowRatio ==>
                 t.pools.low < |r.shelf.pools.list| && r.shelf.pools.list[t.pools.low].id == id)
  {
    LookUpKeeps(s, key);
    LookupAnswers(s, key);
    ReleaseAnswers(LookUp(s, key).shelf, c, s.table[key], false);
  }

  // ----- erase

  /** The key is out of the table at once. Its handle stays for those who refer to it, and is freed if nobody does. */
  ghost predicate EraseAnswer(s: Shelf, key: Key, t: Shelf) {
    if key !in s.table then t == s
    else
      var id := s.table[key];
      && id in s.handles && t.table == s.table - {key} && t.nextId == s.nextId
      && (if s.handles[id].refs > 0 then
            && t.handles == s.handles[id := s.handles[id].(inCache := false)]
            && t.usage == s.usage && t.pools == s.pools
          else
            && t.handles == s.handles - {id} && t.usage == s.usage - s.handles[id].charge
            && IdsOf(t.pools.list) == IdsOf(s.pools.list) - {id})
  }

  lemma EraseAnswers(s: Shelf, key: Key)
    requires Sound(s)
    ensures var r := DropKey(s, key); r.Ends? ==> EraseAnswer(s, key, r.shelf)
  {
    if key in s.table {
      FoundIsThere(s, key);
      var id := s.table[key];
      if id in IdsOf(s.pools.list) {
        IdsWithout(s.pools.list, Position(s.pools.list, id));
      }
    }
  }

  // ----- insert

  /** Handles that are referred to stay, out of the cache if the new entry has their key. */
  ghost predicate ReferencedStayBut(s: Shelf, key: Key, t: Shelf) {
    forall i :: i in s.handles && s.handles[i].refs > 0 ==>
      && i in t.handles
      && t.handles[i] ==
         if s.handles[i].inCache && s.handles[i].key == key then s.handles[i].(inCache := false) else s.handles[i]
  }

  /** Other keys only leave the table, and those that stay keep their handles. */
  ghost predicate OtherKeysOnlyLeave(s: Shelf, key: Key, t: Shelf) {
    forall k :: k in t.table && k != key ==>
      && k in s.table && t.table[k] == s.table[k]
      && t.table[k] in t.handles && t.table[k] in s.handles && t.handles[t.table[k]] == s.handles[t.table[k]]
  }

  /** An entry that cannot fit, although nothing more can be evicted, is refused or, without a handle to give out,
      dropped. Any other is in the table under its key, with the handle of its caller or on the list. If it fits,
      no other key leaves the table. */
  ghost predicate InsertAnswer(
    s: Shelf, c: Config, key: Key, charge: nat, priority: Priority, wantHandle: bool, t: Shelf)
  {
    if t.nextId == s.nextId then
      && (c.strict || !wantHandle) && s.usage + charge > c.capacity && t.usage + charge > c.capacity
      && t.pools.list == [] && Shrunk(s.Ledger(), t.Ledger())
    else
      var id := s.nextId;
      && t.nextId == id + 1 && key in t.table && t.table[key] == id && id in t.handles
      && t.handles[id] == Handle(key, charge, if wantHandle then 1 else 0, true, false, priority)
      && (id in IdsOf(t.pools.list) <==> !wantHandle)
      && ReferencedStayBut(s, key, t) && OtherKeysOnlyLeave(s, key, t)
      && (s.usage + charge <= c.capacity ==> forall k :: k in s.table ==> k in t.table)
  }

  lemma {:induction false} DroppedHandles(b: Books, key: Key, i: nat)
    requires Balanced(b) && i in b.handles && b.handles[i].refs > 0
    ensures i in Dropped(b, key).handles
    ensures Dropped(b, key).handles[i] ==
      if b.handles[i].inCache && b.handles[i].key == key then b.handles[i].(inCache := false) else b.handles[i]
  {
    if key in b.table && b.handles[b.table[key]].refs == 0 {
      assert b.table[key] in EvictableIds(b.handles);
    }
  }

  lemma {:induction false} DroppedKeys(b: Books, key: Key, k: Key)
    requires Balanced(b)
    ensures var d := Dropped(b, key);
      && d.nextId == b.nextId && (k in d.table <==> k in b.table && k != key)
      && (k in d.table ==>
            && d.table[k] == b.table[k] && d.table[k] in b.handles && d.table[k] in d.handles
            && d.handles[d.table[k]] == b.handles[d.table[k]])
  {
    if key in b.table && b.handles[b.table[key]].refs == 0 {
      assert b.table[key] in EvictableIds(b.handles);
    }
  }

  lemma InsertKeepsReferenced(s: Shelf, b: Books, h: Handle, t: Shelf)
    requires Sound(s) && Balanced(b) && Shrunk(s.Ledger(), b) && b.nextId == s.nextId
    requires t.Ledger() == Created(Dropped(b, h.key), h).(list := t.pools.list)
    ensures ReferencedStayBut(s, h.key, t)
  {
    forall i | i in s.handles && s.handles[i].refs > 0
      ensures i in t.handles
      ensures t.handles[i] ==
        if s.handles[i].inCache && s.handles[i].key == h.key then s.handles[i].(inCache := false) else s.handles[i]
    {
      assert i in b.handles && b.handles[i] == s.handles[i];
      DroppedHandles(b, h.key, i);
      DroppedKeys(b, h.key, h.key);
      assert i < s.nextId;
    }
  }

  lemma InsertKeepsOtherKeys(s: Shelf, b: Books, h: Handle, t: Shelf)
    requires Sound(s) && Balanced(b) && Shrunk(s.Ledger(), b) && b.nextId == s.nextId && h.inCache
    requires t.Ledger() == Created(Dropped(b, h.key), h).(list := t.pools.list)
    ensures OtherKeysOnlyLeave(s, h.key, t)
    ensures b == s.Ledger() ==> forall k :: k in s.table ==> k in t.table
  {
    DroppedKeys(b, h.key, h.key);
    forall k | k in t.table && k != h.key
      ensures k in s.table && t.table[k] == s.table[k] && t.table[k] in t.handles && t.table[k] in s.handles
      ensures t.handles[t.table[k]] == s.handles[t.table[k]]
    {
      DroppedKeys(b, h.key, k);
      assert t.table[k] < s.nextId;
    }
    if b == s.Ledger() {
      forall k | k in s.table
        ensures k in t.table
      {
        DroppedKeys(b, h.key, k);
      }
    }
  }

  lemma InsertAnswersFrom(s: Shelf, b: Books, c: Config, h: Handle, t: Shelf)
    requires Sound(s) && Balanced(b) && Shrunk(s.Ledger(), b) && b.nextId == s.nextId && InsertMeans(b, c, h, t)
    requires Balanced(t.Ledger()) && h == Fresh(h.key, h.charge, h.priority, h.refs == 1)
    requires s.usage + h.charge <= c.capacity ==> b == s.Ledger()
    ensures InsertAnswer(s, c, h.key, h.charge, h.priority, h.refs == 1, t)
  {
    DroppedKeys(b, h.key, h.key);
    if b.usage + h.charge > c.capacity && (c.strict || h.refs == 0) {
      assert t.nextId == s.nextId;
    } else {
      InsertKeepsReferenced(s, b, h, t);
      InsertKeepsOtherKeys(s, b, h, t);
      assert s.nextId in EvictableIds(t.handles) <==> h.refs == 0;
    }
  }

  lemma InsertAnswers(s: Shelf, c: Config, key: Key, charge: nat, priority: Priority, wantHandle: bool)
    requires Valid(s, c)
    ensures var r := InsertItem(s, c, Fresh(key, charge, priority, wantHandle));
      r.Ends? ==> InsertAnswer(s, c, key, charge, priority, wantHandle, r.shelf)
  {
    var h := Fresh(key, charge, priority, wantHandle);
    InsertKeeps(s, c, h);
    TrimmedIsShrunk(s.Ledger(), charge, c.capacity);
    TrimmedIsBalanced(s.Ledger(), charge, c.capacity);
    if InsertItem(s, c, h).Ends? {
      InsertAnswersFrom(s, Trimmed(s.Ledger(), charge, c.capacity), c, h, InsertItem(s, c, h).shelf);
    }
  }

  // ----- standalone

  /** A handle that the table does not know: with its charge if that fits once all is evicted, or the limit is not
      strict; else without, if the caller allows that; else none. Nothing else changes but by eviction. */
  ghost predicate StandaloneAnswer(s: Shelf, c: Config, key: Key, charge: nat, allowUncharged: bool, t: Shelf) {
    && (forall i :: i in t.handles && i != s.nextId ==> i in s.handles && t.handles[i] == s.handles[i])
    && (forall i :: i in s.handles && i !in t.handles ==> Evictable(s.handles[i]))
    && (if t.nextId == s.nextId then
          c.strict && !allowUncharged && t.usage + charge > c.capacity && t.pools.list == [] && s.nextId !in t.handles
        else
          && t.nextId == s.nextId + 1 && s.nextId in t.handles
          && t.handles[s.nextId].key == key && t.handles[s.nextId].refs == 1 && !t.handles[s.nextId].inCache
          && (|| t.handles[s.nextId].charge == charge
              || (&& t.handles[s.nextId].charge == 0 && c.strict && allowUncharged
                  && t.usage + charge > c.capacity && t.pools.list == [])))
  }

  lemma StandaloneAnswersFrom(s: Shelf, b: Books, c: Config, h: Handle, allowUncharged: bool, t: Shelf)
    requires Balanced(b) && Shrunk(s.Ledger(), b) && b.nextId == s.nextId && h.refs == 1 && !h.inCache
    requires StandaloneMeans(b, c, h, allowUncharged, t)
    ensures StandaloneAnswer(s, c, h.key, h.charge, allowUncharged, t)
  {
    assert b.nextId !in b.handles;
  }

  lemma StandaloneAnswers(s: Shelf, c: Config, key: Key, charge: nat, allowUncharged: bool)
    requires Valid(s, c)
    ensures var r := Standalone(s, c, Loose(key, charge), allowUncharged);
      r.Ends? ==> StandaloneAnswer(s, c, key, charge, allowUncharged, r.shelf)
  {
    var h := Loose(key, charge);
    StandaloneKeeps(s, c, h, allowUncharged);
    TrimmedIsShrunk(s.Ledger(), charge, c.capacity);
    TrimmedIsBalanced(s.Ledger(), charge, c.capacity);
    var r := Standalone(s, c, h, allowUncharged);
    if r.Ends? {
      StandaloneAnswersFrom(s, Trimmed(s.Ledger(), charge, c.capacity), c, h, allowUncharged, r.shelf);
    }
  }

  // ----- operations of a run

  /** Each operation of a run answers so. */
  lemma ApplyAnswers(s: Shelf, c: Config, op: Op)
    requires Valid(s, c) && Apply(s, c, op).Ends?
    ensures var t := Apply(s, c, op).shelf;
      match op
      case DoInsert(key, charge, priority, wantHandle) => InsertAnswer(s, c, key, charge, priority, wantHandle, t)
      case DoLookup(key) => LookupAnswer(s, key, if key in s.table then Some(s.table[key]) else None, t)
      case DoErase(key) => EraseAnswer(s, key, t)
      case DoStandalone(key, charge, allowUncharged) => StandaloneAnswer(s, c, key, charge, allowUncharged, t)
      case DoRef(id) =>
        if id in s.handles && s.handles[id].refs > 0 then
          t == s.(handles := s.handles[id := s.handles[id].(refs := s.handles[id].refs + 1)])
        else t == s
      case DoRelease(id, eraseIfLast) =>
        if id in s.handles && s.handles[id].refs > 0 then
          exists freed :: ReleaseAnswer(s, c, id, eraseIfLast, freed, t)
        else t == s
      case DoPurge => t.pools.list == [] && Shrunk(s.Ledger(), t.Ledger())
      case DoSetCapacity(n) => (t.usage <= n || t.pools.list == []) && Shrunk(s.Ledger(), t.Ledger())
      case _ => t.(pools := s.pools) == s && SameItems(s.pools.list, t.pools.list)
  {
    match op
    case DoInsert(key, charge, priority, wantHandle) => InsertAnswers(s, c, key, charge, priority, wantHandle);
    case DoLookup(key) => LookupAnswers(s, key);
    case DoErase(key) => EraseAnswers(s, key);
    case DoStandalone(key, charge, allowUncharged) => StandaloneAnswers(s, c, key, charge, allowUncharged);
    case DoRelease(id, eraseIfLast) =>
      if id in s.handles && s.handles[id].refs > 0 {
        ReleaseAnswers(s, c, id, eraseIfLast);
      }
    case DoPurge => EvictAllKeeps(s);
    case DoSetCapacity(n) =>
      EvictToKeeps(s, 0, n);
      TrimmedIsShrunk(s.Ledger(), 0, n);
      TrimmedIsBalanced(s.Ledger(), 0, n);
    case DoSetHighRatio(_) => RetrimKeeps(s, Reconfigured(c, op));
    case DoSetLowRatio(_) => RetrimKeeps(s, Reconfigured(c, op));
    case _ =>
  }
}
