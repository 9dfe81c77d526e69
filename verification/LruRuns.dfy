/** Runs of a cache shard. Every operation that meets no failing assertion keeps the books, so every run
    does; the pools come apart exactly at a low entry that meets a high pool over its cap, and a run
    that never lowers the capacity meets none. */
module LruRuns {
  import opened CacheTypes
  import opened LruPools
  import opened LruHandles
  import opened LruShelf

  /** The handle of a new entry. */
  function Fresh(key: Key, charge: nat, priority: Priority, wantHandle: bool): Handle {
    Handle(key, charge, if wantHandle then 1 else 0, true, false, priority)
  }

  /** The handle of a new standalone entry. */
  function Loose(key: Key, charge: nat): Handle {
    Handle(key, charge, 1, false, false, Bottom)
  }

  /** The invariant of every run: sound books, and nothing left to evict when over capacity. */
  ghost predicate Valid(s: Shelf, c: Config) {
    match c
    case Config(capacity, _, _, _) => Sound(s) && c.Valid() && (s.usage > capacity ==> s.pools.list == [])
  }

  /** The caps of the pools are their ratios of the capacity. */
  lemma CapsAreShares(c: Config)
    ensures c.HighCap() == c.capacity as real * c.highRatio && c.LowCap() == c.capacity as real * c.lowRatio
  {
    ShareIsProduct(c.capacity, c.highRatio);
    ShareIsProduct(c.capacity, c.lowRatio);
  }

  // ----- inserting

  /** What an insert makes of the books `b` that eviction leaves: nothing, because even with an empty list the
      entry does not fit; or the entry takes the place of the old one for its key. */
  ghost predicate InsertMeans(b: Books, c: Config, h: Handle, t: Shelf) {
    match h
    case Handle(key, charge, refs, _, _, _) =>
      if b.usage + charge > c.capacity && (c.strict || refs == 0) then t.Ledger() == b && b.list == []
      else
        && t.Ledger() == Created(Dropped(b, key), h).(list := t.pools.list)
        && (refs > 0 ==> t.pools.list == Dropped(b, key).list)
        && (refs == 0 ==> Joins(Dropped(b, key).list, Item(b.nextId, charge, false, false), t.pools.list))
  }

  /** `now` is `was` with one more entry in it. */
  ghost predicate Joins(was: seq<Item>, e: Item, now: seq<Item>) {
    exists k :: 0 <= k <= |was| && SameItems(now, Inserted(was, k, e))
  }

  /** The state in which an insert links its entry: after eviction, and without the old entry for the key. */
  function BeforeLink(s: Shelf, c: Config, h: Handle): Books {
    Dropped(Trimmed(s.Ledger(), h.charge, c.capacity), h.key)
  }

  /** The guard of the insert that breaks the pools. */
  predicate InsertBreaks(s: Shelf, c: Config, h: Handle) {
    h.refs == 0 && c.Goes(h).ToLow? && HighCharge(BeforeLink(s, c, h).list) as real > c.HighCap()
  }

  lemma InsertKeeps(s: Shelf, c: Config, h: Handle)
    requires Valid(s, c) && h.inCache
    ensures var r := InsertItem(s, c, h);
      r.Ends? ==> Valid(r.shelf, c) && InsertMeans(Trimmed(s.Ledger(), h.charge, c.capacity), c, h, r.shelf) &&
                  (c.strict && s.usage <= c.capacity ==> r.shelf.usage <= c.capacity)
  {
    EvictToKeeps(s, h.charge, c.capacity);
    TrimmedIsBalanced(s.Ledger(), h.charge, c.capacity);
    if EvictTo(s, h.charge, c.capacity).Ends? {
      var t := EvictTo(s, h.charge, c.capacity).shelf;
      if !GivesUp(t, c, h) {
        DropKeyKeeps(t, h.key);
        if DropKey(t, h.key).Ends? {
          AddKeeps(t, DropKey(t, h.key).shelf, c, h);
        }
      }
    }
  }

  /** The end of an insert, from the state `u` that dropping the key makes of `t`. */
  lemma AddKeeps(t: Shelf, u: Shelf, c: Config, h: Handle)
    requires Sound(t) && Sound(u) && c.Valid() && h.inCache && h.key !in u.table
    requires u.Ledger() == Dropped(t.Ledger(), h.key) && u.usage <= t.usage && u.nextId == t.nextId
    requires t.usage + h.charge <= c.capacity || t.pools.list == []
    requires !GivesUp(t, c, h)
    ensures var r := AddHandle(u, c, h);
      r.Ends? ==> Valid(r.shelf, c) && InsertMeans(t.Ledger(), c, h, r.shelf) &&
                  (c.strict ==> r.shelf.usage <= c.capacity)
  {
    AddHandleKeeps(u, c, h);
    if AddHandle(u, c, h).Ends? && h.refs == 0 {
      assert Joins(u.pools.list, Item(u.nextId, h.charge, false, false), AddHandle(u, c, h).shelf.pools.list);
    }
  }

  /** From pools in order, an insert ends with pools in order exactly when it does not break them. */
  lemma InsertKeepsPoolsExactly(s: Shelf, c: Config, h: Handle)
    requires Valid(s, c) && h.inCache && Segmented(s.pools)
    ensures var r := InsertItem(s, c, h);
      && ((r.Ends? && Segmented(r.shelf.pools)) <==> !InsertBreaks(s, c, h))
      && (PoolsFit(s, c) && r.Ends? ==> !InsertBreaks(s, c, h) && PoolsFit(r.shelf, c))
  {
    EvictToKeeps(s, h.charge, c.capacity);
    var t := EvictTo(s, h.charge, c.capacity).shelf;
    DropKeyKeeps(t, h.key);
    var u := DropKey(t, h.key).shelf;
    HighIsFlagged(u.pools);
    ShareGrows(0, c.capacity, c.highRatio);
    if GivesUp(t, c, h) {
      TrimmedIsBalanced(s.Ledger(), h.charge, c.capacity);
      DroppedFromNothing(t.Ledger(), h.key);
    } else if h.refs == 0 {
      PutOnListKeepsPools(u, c, Created(u.Ledger(), h), u.nextId, h);
    }
  }

  lemma DroppedFromNothing(b: Books, key: Key)
    requires b.list == []
    ensures Dropped(b, key).list == []
  {
  }

  // ----- releasing

  lemma ReleaseKeepsBooks(s: Shelf, c: Config, id: nat, eraseIfLast: bool)
    requires Valid(s, c) && id in s.handles && s.handles[id].refs > 0
    ensures var r := ReleaseOne(s, c, id, eraseIfLast);
      r.Ends? ==> Valid(r.shelf, c) && Released(s, c, id, eraseIfLast, r.shelf) && r.shelf.usage <= s.usage
  {
    ReleaseKeeps(s, c, id, eraseIfLast);
  }

  /** The guard of the release that breaks the pools. */
  predicate ReleaseBreaks(s: Shelf, c: Config, id: nat, eraseIfLast: bool) {
    && GoesBack(s, c, id, eraseIfLast)
    && c.Goes(s.handles[id]).ToLow? && HighCharge(s.pools.list) as real > c.HighCap()
  }

  lemma ReleaseKeepsPoolsExactly(s: Shelf, c: Config, id: nat, eraseIfLast: bool)
    requires Valid(s, c) && Segmented(s.pools) && id in s.handles && s.handles[id].refs > 0
    ensures var r := ReleaseOne(s, c, id, eraseIfLast);
      && ((r.Ends? && Segmented(r.shelf.pools)) <==> !ReleaseBreaks(s, c, id, eraseIfLast))
      && (PoolsFit(s, c) && r.Ends? ==> PoolsFit(r.shelf, c))
  {
    HighIsFlagged(s.pools);
    if GoesBack(s, c, id, eraseIfLast) {
      PutOnListKeepsPools(s, c, Refer(s, id, 0).Ledger(), id, s.handles[id]);
    }
  }

  // ----- one operation

  type Ratio = r: real | r >= 0.0

  datatype Op =
    | DoInsert(key: Key, charge: nat, priority: Priority, wantHandle: bool)
    | DoLookup(key: Key)
    | DoErase(key: Key)
    | DoStandalone(key: Key, charge: nat, allowUncharged: bool)
    | DoRef(id: nat)
    | DoRelease(id: nat, eraseIfLast: bool)
    | DoPurge
    | DoSetCapacity(capacity: nat)
    | DoSetHighRatio(ratio: Ratio)
    | DoSetLowRatio(ratio: Ratio)
    | DoSetStrict(strict: bool)

  function Reconfigured(c: Config, op: Op): Config {
    match op
    case DoSetCapacity(n) => c.(capacity := n)
    case DoSetHighRatio(r) => c.(highRatio := r)
    case DoSetLowRatio(r) => c.(lowRatio := r)
    case DoSetStrict(b) => c.(strict := b)
    case _ => c
  }

  /** The caller refers to the handle. */
  predicate Held(s: Shelf, id: nat) {
    id in s.handles && s.handles[id].refs > 0
  }

  /** One operation. Only handles that are referred to are referred to again or released. */
  function Apply(s: Shelf, c: Config, op: Op): Result
    requires Sound(s)
  {
    match op
    case DoInsert(key, charge, priority, wantHandle) => InsertItem(s, c, Fresh(key, charge, priority, wantHandle))
    case DoLookup(key) => LookUp(s, key)
    case DoErase(key) => DropKey(s, key)
    case DoStandalone(key, charge, allowUncharged) => Standalone(s, c, Loose(key, charge), allowUncharged)
    case DoRef(id) => Ends(if Held(s, id) then Refer(s, id, s.handles[id].refs + 1) else s)
    case DoRelease(id, eraseIfLast) => if Held(s, id) then ReleaseOne(s, c, id, eraseIfLast) else Ends(s)
    case DoPurge => EvictAll(s)
    case DoSetCapacity(n) => EvictTo(s, 0, n)
    case DoSetHighRatio(_) => Retrim(s, Reconfigured(c, op))
    case DoSetLowRatio(_) => Retrim(s, Reconfigured(c, op))
    case DoSetStrict(_) => Ends(s)
  }

  /** An operation that lowers the capacity. */
  predicate Lowers(c: Config, op: Op) {
    op.DoSetCapacity? && op.capacity < c.capacity
  }

  lemma StandaloneKeeps(s: Shelf, c: Config, h: Handle, allowUncharged: bool)
    requires Valid(s, c) && h.refs > 0 && !h.inCache
    ensures var r := Standalone(s, c, h, allowUncharged);
      && (r.Ends? ==> Valid(r.shelf, c) && (c.strict && s.usage <= c.capacity ==> r.shelf.usage <= c.capacity) &&
                      StandaloneMeans(Trimmed(s.Ledger(), h.charge, c.capacity), c, h, allowUncharged, r.shelf) &&
                      KeepsReferenced(s, r.shelf))
      && (Segmented(s.pools) ==> r.Ends? && PoolsShrink(s, r.shelf))
  {
    EvictToKeeps(s, h.charge, c.capacity);
    TrimmedIsBalanced(s.Ledger(), h.charge, c.capacity);
    if EvictTo(s, h.charge, c.capacity).Ends? {
      StandaloneAfterEviction(s, EvictTo(s, h.charge, c.capacity).shelf, c, h, allowUncharged);
    }
  }

  lemma StandaloneAfterEviction(s: Shelf, t: Shelf, c: Config, h: Handle, allowUncharged: bool)
    requires Valid(s, c) && Sound(t) && h.refs > 0 && !h.inCache
    requires t.Ledger() == Trimmed(s.Ledger(), h.charge, c.capacity)
    requires t.usage + h.charge <= c.capacity || t.pools.list == []
    requires t.usage <= s.usage
    ensures var u := WithStandalone(t, c, h, allowUncharged);
      && Valid(u, c) && (c.strict && s.usage <= c.capacity ==> u.usage <= c.capacity)
      && StandaloneMeans(t.Ledger(), c, h, allowUncharged, u) && KeepsReferenced(s, u)
  {
    CreatedIsBalanced(t.Ledger(), h);
    CreatedIsBalanced(t.Ledger(), h.(charge := 0));
    TrimmedIsShrunk(s.Ledger(), h.charge, c.capacity);
    ReferencedStay(s, t, WithStandalone(t, c, h, allowUncharged));
  }

  lemma ReferencedStay(s: Shelf, t: Shelf, u: Shelf)
    requires Shrunk(s.Ledger(), t.Ledger())
    requires forall id :: id in t.handles ==> id in u.handles && u.handles[id] == t.handles[id]
    ensures KeepsReferenced(s, u)
  {
  }

  /** Every handle that is referred to is there as it was. */
  ghost predicate KeepsReferenced(s: Shelf, t: Shelf) {
    forall id :: id in s.handles && s.handles[id].refs > 0 ==> id in t.handles && t.handles[id] == s.handles[id]
  }

  /** The books that eviction leaves with one more handle: charged if it fits or the limit is not strict. */
  ghost predicate StandaloneMeans(b: Books, c: Config, h: Handle, allowUncharged: bool, t: Shelf) {
    match c
    case Config(capacity, strict, _, _) =>
      if !strict || b.usage + h.charge <= capacity then t.Ledger() == Created(b, h)
      else b.list == [] && t.Ledger() == if allowUncharged then Created(b, h.(charge := 0)) else b
  }

  /** Every operation that meets no failing assertion keeps the books, whatever the pools; and a strict limit
      that is not lowered stays kept. */
  lemma ApplyKeepsBooks(s: Shelf, c: Config, op: Op)
    requires Valid(s, c)
    ensures Apply(s, c, op).Ends? ==> Valid(Apply(s, c, op).shelf, Reconfigured(c, op))
    ensures Apply(s, c, op).Ends? && c.strict && s.usage <= c.capacity && !Lowers(c, op) ==>
      Apply(s, c, op).shelf.usage <= Reconfigured(c, op).capacity
  {
    match op
    case DoInsert(key, charge, priority, wantHandle) => InsertKeeps(s, c, Fresh(key, charge, priority, wantHandle));
    case DoStandalone(key, charge, allowUncharged) => StandaloneKeeps(s, c, Loose(key, charge), allowUncharged);
    case DoRelease(id, eraseIfLast) =>
      if Held(s, id) {
        ReleaseKeepsBooks(s, c, id, eraseIfLast);
      }
    case _ => OtherKeepsBooks(s, c, op);
  }

  lemma OtherKeepsBooks(s: Shelf, c: Config, op: Op)
    requires Valid(s, c) && !op.DoInsert? && !op.DoStandalone? && !op.DoRelease?
    ensures var r := Apply(s, c, op);
      r.Ends? ==> Valid(r.shelf, Reconfigured(c, op)) && r.shelf.usage <= s.usage
  {
    match op
    case DoLookup(key) => LookUpKeeps(s, key);
    case DoErase(key) =>
      DropKeyKeeps(s, key);
      if s.pools.list == [] {
        DroppedFromNothing(s.Ledger(), key);
      }
    case DoRef(id) =>
      if Held(s, id) {
        ReferencedIsBalanced(s.Ledger(), id, s.handles[id].(refs := s.handles[id].refs + 1));
      }
    case DoPurge => EvictAllKeeps(s);
    case DoSetCapacity(n) =>
      EvictToKeeps(s, 0, n);
      TrimmedIsBalanced(s.Ledger(), 0, n);
    case DoSetHighRatio(_) => RetrimKeeps(s, Reconfigured(c, op));
    case DoSetLowRatio(_) => RetrimKeeps(s, Reconfigured(c, op));
    case DoSetStrict(_) =>
  }

  /** The guard of the operation that breaks the pools: a low entry goes to the list while the high pool, as
      eviction and the replaced entry leave it, is over its cap. */
  predicate BreaksPools(s: Shelf, c: Config, op: Op) {
    match op
    case DoInsert(key, charge, priority, wantHandle) => InsertBreaks(s, c, Fresh(key, charge, priority, wantHandle))
    case DoRelease(id, eraseIfLast) => ReleaseBreaks(s, c, id, eraseIfLast)
    case _ => false
  }

  /** From pools in order, an operation ends with pools in order exactly when it is not such a one. */
  lemma ApplyKeepsPoolsExactly(s: Shelf, c: Config, op: Op)
    requires Valid(s, c) && Segmented(s.pools)
    ensures (Apply(s, c, op).Ends? && Segmented(Apply(s, c, op).shelf.pools)) <==> !BreaksPools(s, c, op)
  {
    match op
    case DoInsert(key, charge, priority, wantHandle) =>
      InsertKeepsPoolsExactly(s, c, Fresh(key, charge, priority, wantHandle));
    case DoRelease(id, eraseIfLast) =>
      if Held(s, id) {
        ReleaseKeepsPoolsExactly(s, c, id, eraseIfLast);
      }
    case _ => OtherKeepsPools(s, c, op);
  }

  lemma OtherKeepsPools(s: Shelf, c: Config, op: Op)
    requires Valid(s, c) && Segmented(s.pools) && !op.DoInsert? && !op.DoRelease?
    ensures var r := Apply(s, c, op);
      && r.Ends? && Segmented(r.shelf.pools)
      && (PoolsFit(s, c) && !Lowers(c, op) ==> PoolsFit(r.shelf, Reconfigured(c, op)))
  {
    match op
    case DoLookup(key) => LookUpKeeps(s, key);
    case DoErase(key) => DropKeyKeeps(s, key);
    case DoStandalone(key, charge, allowUncharged) => StandaloneKeeps(s, c, Loose(key, charge), allowUncharged);
    case DoRef(id) =>
    case DoPurge => EvictAllKeeps(s);
    case DoSetCapacity(n) =>
      EvictToKeeps(s, 0, n);
      if c.capacity <= n {
        ShareGrows(c.capacity, n, c.highRatio);
        ShareGrows(c.capacity, n, c.lowRatio);
      }
    case DoSetHighRatio(_) => RetrimKeeps(s, Reconfigured(c, op));
    case DoSetLowRatio(_) => RetrimKeeps(s, Reconfigured(c, op));
    case DoSetStrict(_) =>
  }

  /** With the pools within their caps, only lowering the capacity can bring them over. */
  lemma ApplyKeepsCaps(s: Shelf, c: Config, op: Op)
    requires Valid(s, c) && Segmented(s.pools) && PoolsFit(s, c) && !Lowers(c, op)
    ensures var r := Apply(s, c, op);
      r.Ends? && Segmented(r.shelf.pools) && PoolsFit(r.shelf, Reconfigured(c, op))
  {
    match op
    case DoInsert(key, charge, priority, wantHandle) =>
      var h := Fresh(key, charge, priority, wantHandle);
      InsertKeepsPoolsExactly(s, c, h);
      FittingPoolsAreNotBroken(s, c, h);
    case DoRelease(id, eraseIfLast) =>
      if Held(s, id) {
        ReleaseKeepsPoolsExactly(s, c, id, eraseIfLast);
        HighIsFlagged(s.pools);
      }
    case _ => OtherKeepsPools(s, c, op);
  }

  lemma FittingPoolsAreNotBroken(s: Shelf, c: Config, h: Handle)
    requires Valid(s, c) && Segmented(s.pools) && PoolsFit(s, c)
    ensures !InsertBreaks(s, c, h)
  {
    EvictToKeeps(s, h.charge, c.capacity);
    var t := EvictTo(s, h.charge, c.capacity).shelf;
    DropKeyKeeps(t, h.key);
    HighIsFlagged(DropKey(t, h.key).shelf.pools);
  }

  // ----- runs

  datatype Outcome = RunEnds(shelf: Shelf, config: Config) | RunAborts

  /** A run, up to the first failing assertion. */
  ghost function RunAll(s: Shelf, c: Config, ops: seq<Op>): Outcome
    requires Valid(s, c)
    decreases |ops|
  {
    if ops == [] then RunEnds(s, c)
    else
      ApplyKeepsBooks(s, c, ops[0]);
      match Apply(s, c, ops[0])
      case Aborts => RunAborts
      case Ends(t) => RunAll(t, Reconfigured(c, ops[0]), ops[1..])
  }

  predicate NeverLowers(c: Config, ops: seq<Op>)
    decreases |ops|
  {
    ops == [] || (!Lowers(c, ops[0]) && NeverLowers(Reconfigured(c, ops[0]), ops[1..]))
  }

  predicate StaysStrict(c: Config, ops: seq<Op>)
    decreases |ops|
  {
    c.strict && (ops == [] || StaysStrict(Reconfigured(c, ops[0]), ops[1..]))
  }

  /** Every run either meets a failing assertion of the source or keeps the books, whatever it does to the
      capacity and the pools. */
  lemma {:induction false} EveryRunKeepsBooks(s: Shelf, c: Config, ops: seq<Op>)
    requires Valid(s, c)
    ensures RunAll(s, c, ops).RunEnds? ==> Valid(RunAll(s, c, ops).shelf, RunAll(s, c, ops).config)
    decreases |ops|
  {
    if ops != [] {
      ApplyKeepsBooks(s, c, ops[0]);
      if Apply(s, c, ops[0]).Ends? {
        EveryRunKeepsBooks(Apply(s, c, ops[0]).shelf, Reconfigured(c, ops[0]), ops[1..]);
      }
    }
  }

  /** A run that never lowers the capacity meets no failing assertion, and its pools stay in order and within
      their caps. */
  lemma {:induction false} RaisingRunKeepsPools(s: Shelf, c: Config, ops: seq<Op>)
    requires Valid(s, c) && Segmented(s.pools) && PoolsFit(s, c) && NeverLowers(c, ops)
    ensures var r := RunAll(s, c, ops);
      r.RunEnds? && Segmented(r.shelf.pools) && PoolsFit(r.shelf, r.config)
    decreases |ops|
  {
    if ops != [] {
      ApplyKeepsBooks(s, c, ops[0]);
      ApplyKeepsCaps(s, c, ops[0]);
      RaisingRunKeepsPools(Apply(s, c, ops[0]).shelf, Reconfigured(c, ops[0]), ops[1..]);
    }
  }

  /** A run that stays strict and never lowers the capacity stays within it. */
  lemma {:induction false} StrictRunStaysWithin(s: Shelf, c: Config, ops: seq<Op>)
    requires Valid(s, c) && s.usage <= c.capacity && NeverLowers(c, ops) && StaysStrict(c, ops)
    ensures var r := RunAll(s, c, ops);
      r.RunEnds? ==> r.shelf.usage <= r.config.capacity
    decreases |ops|
  {
    if ops != [] {
      ApplyKeepsBooks(s, c, ops[0]);
      if Apply(s, c, ops[0]).Ends? {
        StrictRunStaysWithin(Apply(s, c, ops[0]).shelf, Reconfigured(c, ops[0]), ops[1..]);
      }
    }
  }

  /** Some operation of the run breaks the pools where it is applied. */
  ghost predicate SomeBreaks(s: Shelf, c: Config, ops: seq<Op>)
    requires Valid(s, c)
    decreases |ops|
  {
    ops != [] &&
    (ApplyKeepsBooks(s, c, ops[0]);
     BreaksPools(s, c, ops[0]) ||
     (Apply(s, c, ops[0]).Ends? && SomeBreaks(Apply(s, c, ops[0]).shelf, Reconfigured(c, ops[0]), ops[1..])))
  }

  /** The run meets no failing assertion, and its pools are in order in every state. */
  ghost predicate InOrderThroughout(s: Shelf, c: Config, ops: seq<Op>)
    requires Valid(s, c)
    decreases |ops|
  {
    Segmented(s.pools) &&
    (ops == [] ||
     (ApplyKeepsBooks(s, c, ops[0]);
      Apply(s, c, ops[0]).Ends? &&
      InOrderThroughout(Apply(s, c, ops[0]).shelf, Reconfigured(c, ops[0]), ops[1..])))
  }

  /** A run from pools in order keeps them in order throughout, without a failing assertion, exactly when none
      of its operations links a low entry while the high pool is over its cap. */
  lemma {:induction false} RunKeepsPoolsExactly(s: Shelf, c: Config, ops: seq<Op>)
    requires Valid(s, c) && Segmented(s.pools)
    ensures InOrderThroughout(s, c, ops) <==> !SomeBreaks(s, c, ops)
    decreases |ops|
  {
    if ops != [] {
      ApplyKeepsBooks(s, c, ops[0]);
      ApplyKeepsPoolsExactly(s, c, ops[0]);
      if !BreaksPools(s, c, ops[0]) {
        RunKeepsPoolsExactly(Apply(s, c, ops[0]).shelf, Reconfigured(c, ops[0]), ops[1..]);
      } else if Apply(s, c, ops[0]).Ends? {
        assert !Segmented(Apply(s, c, ops[0]).shelf.pools);
      }
    }
  }
}
