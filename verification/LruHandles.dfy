/** The handles that a shard has allocated, what they charge, and which of them the LRU list holds. */
module LruHandles {
  import opened LruPools
  import opened CacheTypes

  /** `refs` counts external references; `inCache` says that the hash table refers to the handle. */
  datatype Handle = Handle(key: Key, charge: nat, refs: nat, inCache: bool, hit: bool, priority: Priority)

  /** In the table and without references: what the LRU list is made of. */
  predicate Evictable(h: Handle) {
    h.inCache && h.refs == 0
  }

  /** What a lookup does to the handle it finds. */
  function Hit(h: Handle): Handle {
    h.(refs := h.refs + 1, hit := true)
  }

  /** The charges of all handles. */
  ghost function Charges(hs: map<nat, Handle>): nat
    decreases |hs|
  {
    if hs == map[] then 0
    else
      var id :| id in hs;
      Charges(hs - {id}) + hs[id].charge
  }

  /** The order in which the charges are added up does not matter. */
  lemma {:induction false} ChargesWithout(hs: map<nat, Handle>, id: nat)
    requires id in hs
    ensures Charges(hs) == Charges(hs - {id}) + hs[id].charge
    decreases |hs|
  {
    var first :| first in hs && Charges(hs) == Charges(hs - {first}) + hs[first].charge;
    if first != id {
      ChargesWithout(hs - {first}, id);
      ChargesWithout(hs - {id}, first);
      assert hs - {first} - {id} == hs - {id} - {first};
    }
  }

  lemma ChargesAfterUpdate(hs: map<nat, Handle>, id: nat, h: Handle)
    ensures id in hs ==> Charges(hs[id := h]) == Charges(hs) - hs[id].charge + h.charge
    ensures id !in hs ==> Charges(hs[id := h]) == Charges(hs) + h.charge
  {
    ChargesWithout(hs[id := h], id);
    if id in hs {
      ChargesWithout(hs, id);
      assert hs[id := h] - {id} == hs - {id};
    } else {
      assert hs[id := h] - {id} == hs;
    }
  }

  predicate NoDuplicates(list: seq<Item>) {
    forall i, j :: 0 <= i < j < |list| ==> list[i].id != list[j].id
  }

  function IdsOf(list: seq<Item>): set<nat> {
    set i | 0 <= i < |list| :: list[i].id
  }

  function EvictableIds(hs: map<nat, Handle>): set<nat> {
    set id | id in hs && Evictable(hs[id])
  }

  /** The list holds exactly the evictable handles, once each, with their charges. */
  ghost predicate Lists(list: seq<Item>, hs: map<nat, Handle>) {
    && NoDuplicates(list)
    && IdsOf(list) == EvictableIds(hs)
    && forall i :: 0 <= i < |list| && list[i].id in hs ==> hs[list[i].id].charge == list[i].charge
  }

  lemma ListedIsEvictable(list: seq<Item>, hs: map<nat, Handle>, k: nat)
    requires Lists(list, hs) && k < |list|
    ensures list[k].id in hs && Evictable(hs[list[k].id]) && hs[list[k].id].charge == list[k].charge
  {
    assert list[k].id in IdsOf(list);
  }

  function Position(list: seq<Item>, id: nat): (k: nat)
    requires id in IdsOf(list)
    ensures k < |list| && list[k].id == id
  {
    if list[0].id == id then 0
    else
      assert id in IdsOf(list[1..]) by {
        var i :| 0 <= i < |list| && list[i].id == id;
        assert list[1..][i - 1].id == id;
      }
      1 + Position(list[1..], id)
  }

  lemma {:induction false} IdsWithout(list: seq<Item>, k: nat)
    requires NoDuplicates(list) && k < |list|
    ensures IdsOf(Removed(list, k)) == IdsOf(list) - {list[k].id} && NoDuplicates(Removed(list, k))
  {
    var r := Removed(list, k);
    forall id | id in IdsOf(list) - {list[k].id}
      ensures id in IdsOf(r)
    {
      var i :| 0 <= i < |list| && list[i].id == id;
      assert r[if i < k then i else i - 1].id == id;
    }
  }

  lemma {:induction false} IdsWith(list: seq<Item>, k: nat, e: Item, list': seq<Item>)
    requires NoDuplicates(list) && k <= |list| && e.id !in IdsOf(list)
    requires SameItems(list', Inserted(list, k, e))
    ensures IdsOf(list') == IdsOf(list) + {e.id} && NoDuplicates(list')
  {
    assert list'[k].id == e.id;
    forall id | id in IdsOf(list)
      ensures id in IdsOf(list')
    {
      var i :| 0 <= i < |list| && list[i].id == id;
      assert list'[if i < k then i else i + 1].id == id;
    }
    forall i | 0 <= i < |list'| && i != k
      ensures list'[i].id in IdsOf(list)
    {
      assert list'[i].id == list[if i < k then i else i - 1].id;
    }
    forall i, j | 0 <= i < j < |list'|
      ensures list'[i].id != list'[j].id
    {
    }
  }

  /** Flags do not matter to the books. */
  lemma {:induction false} SameItemsLists(xs: seq<Item>, ys: seq<Item>, hs: map<nat, Handle>)
    requires Lists(xs, hs) && SameItems(ys, xs)
    ensures Lists(ys, hs)
  {
    assert forall i :: 0 <= i < |xs| ==> xs[i].id == ys[i].id;
    assert IdsOf(xs) == IdsOf(ys);
  }

  /** Unlinking an entry whose handle stops being evictable, or goes away. */
  lemma {:induction false} ListsWithout(list: seq<Item>, hs: map<nat, Handle>, k: nat, hs': map<nat, Handle>)
    requires Lists(list, hs) && k < |list|
    requires EvictableIds(hs') == EvictableIds(hs) - {list[k].id}
    requires forall id :: id in hs' && id in hs ==> hs'[id].charge == hs[id].charge
    ensures Lists(Removed(list, k), hs')
  {
    IdsWithout(list, k);
    forall i | 0 <= i < |list|
      ensures list[i].id in hs
    {
      ListedIsEvictable(list, hs, i);
    }
  }

  /** Linking in an entry whose handle becomes evictable. */
  lemma {:induction false} ListsWith(
    list: seq<Item>, hs: map<nat, Handle>, k: nat, e: Item, list': seq<Item>, h: Handle)
    requires Lists(list, hs) && k <= |list|
    requires e.id in hs ==> !Evictable(hs[e.id])
    requires Evictable(h) && h.charge == e.charge
    requires SameItems(list', Inserted(list, k, e))
    ensures Lists(list', hs[e.id := h])
  {
    IdsWith(list, k, e, list');
    forall i | 0 <= i < |list'|
      ensures list'[i].id in hs[e.id := h] && hs[e.id := h][list'[i].id].charge == list'[i].charge
    {
      if i != k {
        ListedIsEvictable(list, hs, if i < k then i else i - 1);
      }
    }
  }

  /** The table and the handles agree, and a handle outside the table is alive only by its references. */
  ghost predicate Agree(table: map<Key, nat>, hs: map<nat, Handle>) {
    && (forall k :: k in table ==> table[k] in hs && hs[table[k]].inCache && hs[table[k]].key == k)
    && (forall id :: id in hs && hs[id].inCache ==> hs[id].key in table && table[hs[id].key] == id)
    && (forall id :: id in hs && !hs[id].inCache ==> hs[id].refs > 0)
  }

  /** Everything that a shard keeps but its pools: table, handles, list, usage and the next fresh id. */
  datatype Books = Books(table: map<Key, nat>, handles: map<nat, Handle>, list: seq<Item>, usage: int, nextId: nat)

  /** Table and handles agree, the list holds exactly the evictable handles, and the usage is the
      charge of every handle that has not been freed. */
  ghost predicate Balanced(b: Books) {
    match b
    case Books(table, handles, list, usage, nextId) =>
      && Agree(table, handles)
      && Lists(list, handles)
      && usage == Charges(handles)
      && forall id :: id in handles ==> id < nextId
  }

  /** The usage covers the charge of every handle. */
  lemma ChargeIsCovered(b: Books, id: nat)
    requires Balanced(b) && id in b.handles
    ensures b.usage >= b.handles[id].charge
  {
    ChargesWithout(b.handles, id);
  }

  lemma ReferencedIsNotListed(b: Books, id: nat)
    requires Balanced(b) && id in b.handles && b.handles[id].refs > 0
    ensures id !in IdsOf(b.list)
  {
    assert id !in EvictableIds(b.handles);
  }

  lemma NewIdIsNotListed(b: Books)
    requires Balanced(b)
    ensures b.nextId !in IdsOf(b.list)
  {
    assert b.nextId !in EvictableIds(b.handles);
  }

  /** Out of the list, out of the table, and freed. */
  function Evicted(b: Books, k: nat): Books
    requires k < |b.list| && b.list[k].id in b.handles
  {
    var id := b.list[k].id;
    b.(table := b.table - {b.handles[id].key}, handles := b.handles - {id}, list := Removed(b.list, k),
       usage := b.usage - b.handles[id].charge)
  }

  lemma {:induction false} EvictedIsBalanced(b: Books, k: nat)
    requires Balanced(b) && k < |b.list| && b.list[k].id in b.handles
    ensures Balanced(Evicted(b, k))
  {
    var id := b.list[k].id;
    ListedIsEvictable(b.list, b.handles, k);
    ChargesWithout(b.handles, id);
    ListsWithout(b.list, b.handles, k, b.handles - {id});
  }

  /** The handles that somebody refers to. */
  function Referenced(hs: map<nat, Handle>): map<nat, Handle> {
    map id | id in hs && hs[id].refs > 0 :: hs[id]
  }

  lemma NothingListed(b: Books)
    requires Balanced(b) && b.list == []
    ensures Referenced(b.handles) == b.handles
  {
    forall id | id in b.handles
      ensures b.handles[id].refs > 0
    {
      assert IdsOf(b.list) == {};
      assert id !in EvictableIds(b.handles);
    }
  }

  /** The usage is what the list charges and what the handles charge that are referred to. */
  lemma {:induction false} ListedAndPinned(b: Books)
    requires Balanced(b)
    ensures b.usage == Sum(b.list, 0, |b.list|) + Charges(Referenced(b.handles))
    decreases |b.list|
  {
    if b.list == [] {
      NothingListed(b);
    } else {
      var last := |b.list| - 1;
      var id := b.list[last].id;
      ListedIsEvictable(b.list, b.handles, last);
      EvictedIsBalanced(b, last);
      ListedAndPinned(Evicted(b, last));
      assert Removed(b.list, last) == b.list[..last];
      SumShifted(b.list[..last], b.list, 0, last, 0);
      assert Referenced(b.handles - {id}) == Referenced(b.handles);
    }
  }

  /** Off the list with a first reference. */
  function Pinned(b: Books, k: nat, h: Handle): Books
    requires k < |b.list|
  {
    b.(handles := b.handles[b.list[k].id := h], list := Removed(b.list, k))
  }

  lemma {:induction false} PinnedIsBalanced(b: Books, k: nat, h: Handle)
    requires Balanced(b) && k < |b.list| && b.list[k].id in b.handles
    requires var was := b.handles[b.list[k].id]; h.key == was.key && h.charge == was.charge && h.inCache && h.refs > 0
    ensures Balanced(Pinned(b, k, h))
  {
    var id := b.list[k].id;
    ListedIsEvictable(b.list, b.handles, k);
    ChargesAfterUpdate(b.handles, id, h);
    ListsWithout(b.list, b.handles, k, b.handles[id := h]);
  }

  /** A change of references, hits or table membership that leaves the handle off the list. */
  function Changed(b: Books, id: nat, h: Handle): Books
    requires id in b.handles
  {
    b.(handles := b.handles[id := h], table := if h.inCache then b.table else b.table - {b.handles[id].key})
  }

  lemma {:induction false} ChangedIsBalanced(b: Books, id: nat, h: Handle)
    requires Balanced(b) && id in b.handles && b.handles[id].inCache && b.handles[id].refs > 0
    requires h.key == b.handles[id].key && h.charge == b.handles[id].charge && h.refs > 0
    ensures Balanced(Changed(b, id, h))
  {
    ChargesAfterUpdate(b.handles, id, h);
  }

  /** More or fewer references to a handle, in the table or not, that keeps at least one. */
  lemma {:induction false} ReferencedIsBalanced(b: Books, id: nat, h: Handle)
    requires Balanced(b) && id in b.handles && b.handles[id].refs > 0
    requires h == b.handles[id].(refs := h.refs) && h.refs > 0
    ensures Balanced(b.(handles := b.handles[id := h]))
  {
    ChargesAfterUpdate(b.handles, id, h);
  }

  /** Freed without having been on the list; taken out of the table if it is there. */
  function Freed(b: Books, id: nat): Books
    requires id in b.handles
  {
    b.(handles := b.handles - {id},
       table := if b.handles[id].inCache then b.table - {b.handles[id].key} else b.table,
       usage := b.usage - b.handles[id].charge)
  }

  lemma {:induction false} FreedIsBalanced(b: Books, id: nat)
    requires Balanced(b) && id in b.handles && b.handles[id].refs > 0
    ensures Balanced(Freed(b, id))
  {
    ChargesWithout(b.handles, id);
  }

  /** A new handle outside the list; in the table if its key was not there. */
  function Created(b: Books, h: Handle): Books {
    b.(handles := b.handles[b.nextId := h], table := if h.inCache then b.table[h.key := b.nextId] else b.table,
       usage := b.usage + h.charge, nextId := b.nextId + 1)
  }

  lemma {:induction false} CreatedIsBalanced(b: Books, h: Handle)
    requires Balanced(b) && h.refs > 0 && (h.inCache ==> h.key !in b.table)
    ensures Balanced(Created(b, h))
  {
    assert b.nextId !in b.handles;
    ChargesAfterUpdate(b.handles, b.nextId, h);
    forall i | 0 <= i < |b.list|
      ensures b.list[i].id in b.handles
    {
      ListedIsEvictable(b.list, b.handles, i);
    }
    assert EvictableIds(b.handles[b.nextId := h]) == EvictableIds(b.handles);
  }

  /** Back on the list once its last reference is gone. */
  function Unpinned(b: Books, id: nat, h: Handle, list: seq<Item>): Books {
    b.(handles := b.handles[id := h], list := list)
  }

  lemma {:induction false} UnpinnedIsBalanced(b: Books, id: nat, h: Handle, k: nat, list: seq<Item>)
    requires Balanced(b) && id in b.handles && b.handles[id].inCache && b.handles[id].refs > 0 && k <= |b.list|
    requires h == b.handles[id].(refs := 0)
    requires SameItems(list, Inserted(b.list, k, Item(id, h.charge, false, false)))
    ensures Balanced(Unpinned(b, id, h, list))
  {
    ChargesAfterUpdate(b.handles, id, h);
    ListsWith(b.list, b.handles, k, Item(id, h.charge, false, false), list, h);
  }

  /** The books once a key is out of the table: its handle goes if nobody refers to it. */
  function Dropped(b: Books, key: Key): Books {
    if key !in b.table || b.table[key] !in b.handles then b
    else
      var id := b.table[key];
      if b.handles[id].refs > 0 then Changed(b, id, b.handles[id].(inCache := false))
      else if id in IdsOf(b.list) then Evicted(b, Position(b.list, id))
      else b
  }

  /** A new entry of the table that goes straight to the list. */
  lemma {:induction false} ListedIsBalanced(b: Books, h: Handle, k: nat, list: seq<Item>)
    requires Balanced(b) && Evictable(h) && h.key !in b.table && k <= |b.list|
    requires SameItems(list, Inserted(b.list, k, Item(b.nextId, h.charge, false, false)))
    ensures Balanced(Created(b, h).(list := list))
  {
    var held := h.(refs := 1);
    CreatedIsBalanced(b, held);
    UnpinnedIsBalanced(Created(b, held), b.nextId, h, k, list);
    assert Unpinned(Created(b, held), b.nextId, h, list) == Created(b, h).(list := list);
  }

  /** Evictions from the old end until `charge` more fits under `capacity`, or nothing is left. */
  function Trimmed(b: Books, charge: nat, capacity: nat): Books
    decreases |b.list|
  {
    if b.usage + charge <= capacity || b.list == [] || b.list[0].id !in b.handles then b
    else Trimmed(Evicted(b, 0), charge, capacity)
  }

  /** Trimming keeps the books balanced, and ends with room for the charge or an empty list. */
  lemma {:induction false} TrimmedIsBalanced(b: Books, charge: nat, capacity: nat)
    requires Balanced(b)
    ensures Balanced(Trimmed(b, charge, capacity))
    ensures var c := Trimmed(b, charge, capacity);
      (c.usage + charge <= capacity || c.list == []) && c.usage <= b.usage && c.nextId == b.nextId
    decreases |b.list|
  {
    if b.usage + charge > capacity && b.list != [] {
      ListedIsEvictable(b.list, b.handles, 0);
      EvictedIsBalanced(b, 0);
      TrimmedIsBalanced(Evicted(b, 0), charge, capacity);
    }
  }

  lemma SumOfTail(list: seq<Item>, m: nat)
    requires m < |list|
    ensures Sum(list, 0, m + 1) == list[0].charge + Sum(list[1..], 0, m)
  {
    SumOne(list, 0, m + 1);
    SumShifted(list[1..], list, 0, m, 1);
  }

  /** It evicts a stretch at the old end of the list, and the last entry of it only because the
      charge did not fit without. */
  lemma {:induction false} TrimmedIsMinimal(b: Books, charge: nat, capacity: nat) returns (n: nat)
    requires Balanced(b)
    ensures n <= |b.list| && Trimmed(b, charge, capacity).list == b.list[n..]
    ensures Trimmed(b, charge, capacity).usage == b.usage - Sum(b.list, 0, n)
    ensures n > 0 ==> b.usage - Sum(b.list, 0, n - 1) + charge > capacity
    decreases |b.list|
  {
    if b.usage + charge <= capacity || b.list == [] {
      n := 0;
    } else {
      ListedIsEvictable(b.list, b.handles, 0);
      var c := Evicted(b, 0);
      EvictedIsBalanced(b, 0);
      n := TrimmedIsMinimal(c, charge, capacity);
      assert c.list == b.list[1..];
      SumOfTail(b.list, n);
      if n > 0 {
        SumOfTail(b.list, n - 1);
      }
      n := n + 1;
    }
  }

  /** `c` is `b` after some evictions: handles and table entries only go away, and only evictable
      handles do. */
  ghost predicate Shrunk(b: Books, c: Books) {
    && (forall id :: id in c.handles ==> id in b.handles && c.handles[id] == b.handles[id])
    && (forall id :: id in b.handles && id !in c.handles ==> Evictable(b.handles[id]))
    && (forall k :: k in c.table ==> k in b.table && c.table[k] == b.table[k])
    && (forall k :: k in b.table && k !in c.table ==> b.table[k] !in c.handles)
  }

  lemma EvictedIsShrunk(b: Books, k: nat)
    requires Balanced(b) && k < |b.list| && b.list[k].id in b.handles
    ensures Shrunk(b, Evicted(b, k))
  {
    ListedIsEvictable(b.list, b.handles, k);
  }

  lemma ShrinksOn(a: Books, b: Books, c: Books)
    requires Shrunk(a, b) && Shrunk(b, c)
    ensures Shrunk(a, c)
  {
  }

  lemma {:induction false} TrimmedIsShrunk(b: Books, charge: nat, capacity: nat)
    requires Balanced(b)
    ensures Shrunk(b, Trimmed(b, charge, capacity))
    decreases |b.list|
  {
    if b.usage + charge > capacity && b.list != [] {
      ListedIsEvictable(b.list, b.handles, 0);
      EvictedIsBalanced(b, 0);
      EvictedIsShrunk(b, 0);
      TrimmedIsShrunk(Evicted(b, 0), charge, capacity);
      ShrinksOn(b, Evicted(b, 0), Trimmed(b, charge, capacity));
    }
  }
}
