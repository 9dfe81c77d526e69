/** The lock-free slot protocol of HyperClockTable, as a transition system.

    Each step is one atomic operation of one thread, under sequential consistency. Counters are
    unbounded here: the source keeps both below half of their thirty bits, where its overflow
    correction changes nothing. */
module ClockProtocol {
  import opened Arithmetic
  import opened ProbeSequence

  datatype SlotState = Empty | Construction | Invisible | Visible

  predicate Shareable(st: SlotState) {
    st.Invisible? || st.Visible?
  }

  /** The packed word of a slot: acquire counter, release counter, state marker. */
  datatype Meta = Meta(acquire: int, release: int, state: SlotState)

  function RefCount(m: Meta): int {
    m.acquire - m.release
  }

  datatype Slot = Slot(meta: Meta, key: HashedKey)

  const OWNED := Meta(0, 0, Construction)
  const CLEARED := Meta(0, 0, Empty)

  /** kMaxCountdown */
  const MAX_COUNTDOWN := 3

  /** BeginSlotInsert and FinishSlotInsert on one slot: claim it with fetch_or, else take references
      to a visible entry, read its key, boost it on a match or drop the references, then pass on. */
  datatype InsertPhase = Claim | TakeRefs | ReadKey | Boost | DropRefs | Pass | Fill | Publish

  /** Lookup on one slot: optimistic acquire, read the key, undo, decide whether to go on. */
  datatype LookupPhase = Acquire | Match | Undo | Continue

  /** Erase on one slot: pin, read the key, hide, take ownership from a copy of the word, or unpin;
      after taking ownership, mark the slot empty; then decide whether to go on. */
  datatype ErasePhase = Pin | Check | Hide | Take(copy: Meta) | Unpin | Clear | GoOn

  datatype Outcome = Nothing | Found(key: HashedKey) | Missing(key: HashedKey)

  /** Where a thread is. `i` is a probe number, `j` the next displacement to take back. */
  datatype Thread =
    | Idle(last: Outcome)
    | Insert(key: HashedKey, countdown: nat, keep: bool, i: nat, insertAt: InsertPhase)
    | InsertRollback(key: HashedKey, i: nat, j: nat)
    | Lookup(key: HashedKey, i: nat, lookupAt: LookupPhase)
    | Erase(key: HashedKey, i: nat, eraseAt: ErasePhase)
    | EraseRollback(key: HashedKey, i: nat, j: nat)
    | Release(s: nat, copy: Meta)
    | Evict(s: nat, copy: Meta)
    | Purge(s: nat, copy: Meta)
    | Free(s: nat, key: HashedKey, j: nat)

  /** What an idle thread does next. The last five start on, or act on, a given slot. */
  datatype Command =
    | DoInsert(key: HashedKey, countdown: nat, keep: bool)
    | DoLookup(key: HashedKey)
    | DoErase(key: HashedKey)
    | DoRef(s: nat)
    | DoRelease(s: nat, useful: bool, eraseIfLast: bool)
    | DoEvict(s: nat)
    | DoPurge(s: nat)

  /** `handles[s]` counts the references that cache users hold on slot `s`. */
  datatype State = State(
    bits: nat,
    slots: seq<Slot>,
    displacements: seq<int>,
    handles: seq<int>,
    threads: seq<Thread>)

  /** A step changes its own thread and at most one slot: its word and key, its displacement
      count, and the handles on it. */
  datatype Effect = Effect(thread: Thread, at: nat, slot: Slot, displace: int, hand: int)

  function Apply(st: State, t: nat, e: Effect): State
    requires t < |st.threads| && e.at < |st.slots| == |st.displacements| == |st.handles|
  {
    st.(slots := st.slots[e.at := e.slot],
        displacements := st.displacements[e.at := st.displacements[e.at] + e.displace],
        handles := st.handles[e.at := st.handles[e.at] + e.hand],
        threads := st.threads[t := e.thread])
  }

  predicate Shaped(st: State) {
    |st.slots| == |st.displacements| == |st.handles| == Pow2(st.bits)
  }

  /** Probe numbers and slots are in range, and a rollback has not passed its end. */
  ghost predicate InRange(bits: nat, th: Thread) {
    match th
    case Idle(_) => true
    case Insert(_, countdown, _, i, _) => i < Pow2(bits) && countdown > 0
    case InsertRollback(_, i, j) => j <= i < Pow2(bits)
    case Lookup(_, i, _) => i < Pow2(bits)
    case Erase(_, i, _) => i < Pow2(bits)
    case EraseRollback(_, i, j) => j <= i < Pow2(bits)
    case Release(s, _) => s < Pow2(bits)
    case Evict(s, _) => s < Pow2(bits)
    case Purge(s, _) => s < Pow2(bits)
    case Free(s, key, j) => s < Pow2(bits) && j <= Rank(bits, key, s)
  }

  // ----- the steps

  /** A step that leaves every slot alone. */
  function Local(st: State, th: Thread): Effect
    requires Shaped(st)
  {
    Effect(th, 0, st.slots[0], 0, 0)
  }

  function WithMeta(slot: Slot, m: Meta): Slot {
    slot.(meta := m)
  }

  function AddAcquire(slot: Slot, n: int): Slot {
    WithMeta(slot, slot.meta.(acquire := slot.meta.acquire + n))
  }

  function AddRelease(slot: Slot, n: int): Slot {
    WithMeta(slot, slot.meta.(release := slot.meta.release + n))
  }

  function InsertStep(st: State, th: Thread): (e: Effect)
    requires Shaped(st) && th.Insert? && th.i < Pow2(st.bits)
    ensures e.at < Pow2(st.bits)
  {
    var s := Probe(st.bits, th.key, th.i);
    var slot := st.slots[s];
    match th.insertAt
    case Claim =>
      if slot.meta.state.Empty? then
        Effect(th.(insertAt := Fill), s, WithMeta(slot, slot.meta.(state := Construction)), 0, 0)
      else Effect(th.(insertAt := if slot.meta.state.Visible? then TakeRefs else Pass), s, slot, 0, 0)
    case TakeRefs =>
      Effect(
        th.(insertAt := if slot.meta.state.Visible? then ReadKey
                        else if slot.meta.state.Invisible? then DropRefs else Pass),
        s, AddAcquire(slot, th.countdown), 0, 0)
    case ReadKey =>
      Effect(th.(insertAt := if slot.key == th.key then Boost else DropRefs), s, slot, 0, 0)
    case Boost =>
      Effect(InsertRollback(th.key, th.i, 0), s, AddRelease(slot, th.countdown), 0, 0)
    case DropRefs =>
      Effect(th.(insertAt := Pass), s, AddAcquire(slot, 0 - th.countdown), 0, 0)
    case Pass =>
      if th.i + 1 == Pow2(st.bits) then Effect(InsertRollback(th.key, th.i, 0), s, slot, 0, 0)
      else Effect(th.(i := th.i + 1, insertAt := Claim), s, slot, 1, 0)
    case Fill =>
      Effect(th.(insertAt := Publish), s, slot.(key := th.key), 0, 0)
    case Publish =>
      Effect(Idle(Nothing), s,
             WithMeta(slot, Meta(th.countdown, th.countdown - (if th.keep then 1 else 0), Visible)),
             0, if th.keep then 1 else 0)
  }

  function LookupStep(st: State, th: Thread): (e: Effect)
    requires Shaped(st) && th.Lookup? && th.i < Pow2(st.bits)
    ensures e.at < Pow2(st.bits)
  {
    var s := Probe(st.bits, th.key, th.i);
    var slot := st.slots[s];
    match th.lookupAt
    case Acquire =>
      Effect(
        th.(lookupAt := if slot.meta.state.Visible? then Match
                        else if slot.meta.state.Invisible? then Undo else Continue),
        s, AddAcquire(slot, 1), 0, 0)
    case Match =>
      if slot.key == th.key then Effect(Idle(Found(th.key)), s, slot, 0, 1)
      else Effect(th.(lookupAt := Undo), s, slot, 0, 0)
    case Undo =>
      Effect(th.(lookupAt := Continue), s, AddAcquire(slot, -1), 0, 0)
    case Continue =>
      if st.displacements[s] == 0 || th.i + 1 == Pow2(st.bits) then Effect(Idle(Missing(th.key)), s, slot, 0, 0)
      else Effect(th.(i := th.i + 1, lookupAt := Acquire), s, slot, 0, 0)
  }

  function EraseStep(st: State, th: Thread): (e: Effect)
    requires Shaped(st) && th.Erase? && th.i < Pow2(st.bits)
    ensures e.at < Pow2(st.bits)
  {
    var s := Probe(st.bits, th.key, th.i);
    var slot := st.slots[s];
    match th.eraseAt
    case Pin =>
      Effect(
        th.(eraseAt := if slot.meta.state.Visible? then Check else if slot.meta.state.Invisible? then Unpin else GoOn),
        s, AddAcquire(slot, 1), 0, 0)
    case Check =>
      Effect(th.(eraseAt := if slot.key == th.key then Hide else Unpin), s, slot, 0, 0)
    case Hide =>
      var hidden := slot.meta.(state := if slot.meta.state.Visible? then Invisible else slot.meta.state);
      Effect(th.(eraseAt := Take(hidden)), s, WithMeta(slot, hidden), 0, 0)
    case Take(copy) =>
      if RefCount(copy) > 1 then Effect(th.(eraseAt := Unpin), s, slot, 0, 0)
      else if slot.meta == copy then Effect(th.(eraseAt := Clear), s, WithMeta(slot, OWNED), 0, 0)
      else Effect(th.(eraseAt := Take(slot.meta)), s, slot, 0, 0)
    case Unpin =>
      Effect(th.(eraseAt := GoOn), s, AddAcquire(slot, -1), 0, 0)
    case Clear =>
      Effect(EraseRollback(th.key, th.i, 0), s, WithMeta(slot, CLEARED), 0, 0)
    case GoOn =>
      if st.displacements[s] == 0 || th.i + 1 == Pow2(st.bits) then Effect(Idle(Nothing), s, slot, 0, 0)
      else Effect(th.(i := th.i + 1, eraseAt := Pin), s, slot, 0, 0)
  }

  /** Compare-exchange from `copy` to Construction, and on success start freeing the entry. */
  function TakeOwnership(st: State, s: nat, copy: Meta, otherwise: Thread): (e: Effect)
    requires Shaped(st) && s < Pow2(st.bits)
    ensures e.at < Pow2(st.bits)
  {
    var slot := st.slots[s];
    if slot.meta == copy then Effect(Free(s, slot.key, 0), s, WithMeta(slot, OWNED), 0, 0)
    else Effect(otherwise, s, slot, 0, 0)
  }

  /** ClockUpdate after its load: skip, count down, or evict. */
  function EvictStep(st: State, s: nat, copy: Meta): (e: Effect)
    requires Shaped(st) && s < Pow2(st.bits)
    ensures e.at < Pow2(st.bits)
  {
    if copy.acquire != copy.release || !Shareable(copy.state) then Local(st, Idle(Nothing))
    else if copy.state.Visible? && copy.acquire > 0 then
      var slot := st.slots[s];
      var count := if copy.acquire - 1 < MAX_COUNTDOWN - 1 then copy.acquire - 1 else MAX_COUNTDOWN - 1;
      if slot.meta == copy then Effect(Idle(Nothing), s, WithMeta(slot, Meta(count, count, Visible)), 0, 0)
      else Effect(Idle(Nothing), s, slot, 0, 0)
    else TakeOwnership(st, s, copy, Idle(Nothing))
  }

  /** What is left of Release once the reference is gone: free the entry if nobody refers to it. */
  function ReleaseStep(st: State, s: nat, copy: Meta): (e: Effect)
    requires Shaped(st) && s < Pow2(st.bits)
    ensures e.at < Pow2(st.bits)
  {
    if RefCount(copy) != 0 || !Shareable(copy.state) then Local(st, Idle(Nothing))
    else TakeOwnership(st, s, copy, Release(s, st.slots[s].meta))
  }

  /** EraseUnRefEntries on one slot, after its load. */
  function PurgeStep(st: State, s: nat, copy: Meta): (e: Effect)
    requires Shaped(st) && s < Pow2(st.bits)
    ensures e.at < Pow2(st.bits)
  {
    if !Shareable(copy.state) || RefCount(copy) != 0 then Local(st, Idle(Nothing))
    else TakeOwnership(st, s, copy, Idle(Nothing))
  }

  /** Rollback from the start of the probe sequence up to the owned slot, then MarkEmpty. */
  function FreeStep(st: State, s: nat, key: HashedKey, j: nat): (e: Effect)
    requires Shaped(st) && s < Pow2(st.bits)
    ensures e.at < Pow2(st.bits)
  {
    var p := Probe(st.bits, key, j);
    if p == s then Effect(Idle(Nothing), s, WithMeta(st.slots[s], CLEARED), 0, 0)
    else Effect(Free(s, key, j + 1), p, st.slots[p], -1, 0)
  }

  /** A rollback that stops at probe number `i`. */
  function RollbackStep(st: State, key: HashedKey, i: nat, j: nat, more: Thread, done: Thread): (e: Effect)
    requires Shaped(st)
    ensures e.at < Pow2(st.bits)
  {
    if j == i then Local(st, done)
    else
      var p := Probe(st.bits, key, j);
      Effect(more, p, st.slots[p], -1, 0)
  }

  function CommandStep(st: State, th: Thread, cmd: Command): (e: Effect)
    requires Shaped(st)
    ensures e.at < Pow2(st.bits)
  {
    var n := Pow2(st.bits);
    match cmd
    case DoInsert(key, countdown, keep) =>
      if countdown > 0 then Local(st, Insert(key, countdown, keep, 0, Claim)) else Local(st, th)
    case DoLookup(key) => Local(st, Lookup(key, 0, Acquire))
    case DoErase(key) => Local(st, Erase(key, 0, Pin))
    case DoRef(s) =>
      if s < n && st.handles[s] > 0 then Effect(Idle(Nothing), s, AddAcquire(st.slots[s], 1), 0, 1) else Local(st, th)
    case DoRelease(s, useful, eraseIfLast) =>
      if s < n && st.handles[s] > 0 then
        var slot := if useful then AddRelease(st.slots[s], 1) else AddAcquire(st.slots[s], -1);
        Effect(if eraseIfLast || slot.meta.state.Invisible? then Release(s, slot.meta) else Idle(Nothing),
               s, slot, 0, -1)
      else Local(st, th)
    case DoEvict(s) => if s < n then Local(st, Evict(s, st.slots[s].meta)) else Local(st, th)
    case DoPurge(s) => if s < n then Local(st, Purge(s, st.slots[s].meta)) else Local(st, th)
  }

  /** One step of thread `th`; the command matters only to an idle thread. */
  ghost function Move(st: State, th: Thread, cmd: Command): (e: Effect)
    requires Shaped(st) && InRange(st.bits, th)
    ensures e.at < Pow2(st.bits)
  {
    match th
    case Idle(_) => CommandStep(st, th, cmd)
    case Insert(_, _, _, _, _) => InsertStep(st, th)
    case InsertRollback(key, i, j) =>
      RollbackStep(st, key, i, j, InsertRollback(key, i, j + 1), Idle(Nothing))
    case Lookup(_, _, _) => LookupStep(st, th)
    case Erase(_, _, _) => EraseStep(st, th)
    case EraseRollback(key, i, j) =>
      RollbackStep(st, key, i, j, EraseRollback(key, i, j + 1), Erase(key, i, GoOn))
    case Release(s, copy) => ReleaseStep(st, s, copy)
    case Evict(s, copy) => EvictStep(st, s, copy)
    case Purge(s, copy) => PurgeStep(st, s, copy)
    case Free(s, key, j) => FreeStep(st, s, key, j)
  }

  // ----- what threads hold

  datatype Measure = References | Ownership | Displacing

  /** The references that a thread holds on slot `s` in the middle of an operation. */
  function RefsHeld(bits: nat, th: Thread, s: nat): nat {
    match th
    case Insert(key, countdown, _, i, at) =>
      if (at.ReadKey? || at.Boost? || at.DropRefs?) && Probe(bits, key, i) == s then countdown else 0
    case Lookup(key, i, at) =>
      if (at.Match? || at.Undo?) && Probe(bits, key, i) == s then 1 else 0
    case Erase(key, i, at) =>
      if (at.Check? || at.Hide? || at.Take? || at.Unpin?) && Probe(bits, key, i) == s then 1 else 0
    case _ => 0
  }

  /** Whether the thread put slot `s` under construction. */
  predicate Owns(bits: nat, th: Thread, s: nat) {
    match th
    case Insert(key, _, _, i, at) => (at.Fill? || at.Publish?) && Probe(bits, key, i) == s
    case Erase(key, i, at) => at.Clear? && Probe(bits, key, i) == s
    case Free(s', _, _) => s' == s
    case _ => false
  }

  /** Whether the thread still has a displacement count of its own on slot `s`: probes `[lo, hi)`
      that it has passed, or that it has yet to take back. */
  ghost predicate Displaces(bits: nat, th: Thread, s: nat)
    requires InRange(bits, th) && s < Pow2(bits)
  {
    match th
    case Insert(key, _, _, i, _) => Rank(bits, key, s) < i
    case InsertRollback(key, i, j) => j <= Rank(bits, key, s) < i
    case Erase(key, i, at) => at.Clear? && Rank(bits, key, s) < i
    case EraseRollback(key, i, j) => j <= Rank(bits, key, s) < i
    case Free(s', key, j) => j <= Rank(bits, key, s) < Rank(bits, key, s')
    case _ => false
  }

  ghost function Weight(bits: nat, what: Measure, th: Thread, s: nat): nat
    requires InRange(bits, th) && s < Pow2(bits)
  {
    match what
    case References => RefsHeld(bits, th, s)
    case Ownership => if Owns(bits, th, s) then 1 else 0
    case Displacing => if Displaces(bits, th, s) then 1 else 0
  }

  ghost predicate AllInRange(bits: nat, ts: seq<Thread>) {
    forall t :: 0 <= t < |ts| ==> InRange(bits, ts[t])
  }

  ghost function Total(bits: nat, what: Measure, ts: seq<Thread>, s: nat): nat
    requires AllInRange(bits, ts) && s < Pow2(bits)
  {
    if ts == [] then 0
    else Total(bits, what, ts[..|ts| - 1], s) + Weight(bits, what, ts[|ts| - 1], s)
  }

  lemma {:induction false} TotalAfterUpdate(bits: nat, what: Measure, ts: seq<Thread>, t: nat, th: Thread, s: nat)
    requires AllInRange(bits, ts) && s < Pow2(bits) && t < |ts| && InRange(bits, th)
    ensures Total(bits, what, ts[t := th], s) + Weight(bits, what, ts[t], s) ==
            Total(bits, what, ts, s) + Weight(bits, what, th, s)
  {
    var us := ts[t := th];
    if t == |ts| - 1 {
      assert us[..|ts| - 1] == ts[..|ts| - 1];
    } else {
      assert us[..|ts| - 1] == ts[..|ts| - 1][t := th];
      TotalAfterUpdate(bits, what, ts[..|ts| - 1], t, th, s);
    }
  }

  lemma {:induction false} TotalCoversPair(bits: nat, what: Measure, ts: seq<Thread>, t: nat, u: nat, s: nat)
    requires AllInRange(bits, ts) && s < Pow2(bits) && t < |ts| && u < |ts|
    ensures Total(bits, what, ts, s) >= Weight(bits, what, ts[t], s)
    ensures t != u ==> Total(bits, what, ts, s) >= Weight(bits, what, ts[t], s) + Weight(bits, what, ts[u], s)
  {
    var last := |ts| - 1;
    var head := ts[..last];
    if t < last && u < last {
      TotalCoversPair(bits, what, head, t, u, s);
    } else if t < last {
      TotalCoversPair(bits, what, head, t, t, s);
    } else if u < last {
      TotalCoversPair(bits, what, head, u, u, s);
    }
  }

  /** Whether the entry at slot `e` passed over slot `s` on its way in. */
  ghost predicate PassesOver(bits: nat, slot: Slot, e: nat, s: nat)
    requires e < Pow2(bits) && s < Pow2(bits)
  {
    Shareable(slot.meta.state) && Rank(bits, slot.key, s) < Rank(bits, slot.key, e)
  }

  ghost function Passes(bits: nat, slot: Slot, e: nat, s: nat): nat
    requires e < Pow2(bits) && s < Pow2(bits)
  {
    if PassesOver(bits, slot, e, s) then 1 else 0
  }

  /** How many of the entries in the first `m` slots passed over slot `s`. */
  ghost function Passing(bits: nat, slots: seq<Slot>, m: nat, s: nat): nat
    requires m <= |slots| == Pow2(bits) && s < Pow2(bits)
  {
    if m == 0 then 0 else Passing(bits, slots, m - 1, s) + Passes(bits, slots[m - 1], m - 1, s)
  }

  lemma {:induction false} PassingAfterUpdate(bits: nat, slots: seq<Slot>, m: nat, e: nat, slot: Slot, s: nat)
    requires m <= |slots| == Pow2(bits) && s < Pow2(bits) && e < Pow2(bits)
    ensures Passing(bits, slots[e := slot], m, s) ==
      Passing(bits, slots, m, s) + if e < m then Passes(bits, slot, e, s) - Passes(bits, slots[e], e, s) else 0
    decreases m
  {
    if m > 0 {
      PassingAfterUpdate(bits, slots, m - 1, e, slot, s);
    }
  }

  lemma {:induction false} PassingCovers(bits: nat, slots: seq<Slot>, m: nat, e: nat, s: nat)
    requires m <= |slots| == Pow2(bits) && s < Pow2(bits) && e < m
    ensures Passing(bits, slots, m, s) >= Passes(bits, slots[e], e, s)
    decreases m
  {
    if e < m - 1 {
      PassingCovers(bits, slots, m - 1, e, s);
    }
  }

  // ----- the invariant

  ghost function Holders(st: State, s: nat): int
    requires Shaped(st) && AllInRange(st.bits, st.threads) && s < Pow2(st.bits)
  {
    st.handles[s] + Total(st.bits, References, st.threads, s)
  }

  ghost predicate SlotInv(st: State, s: nat)
    requires Shaped(st) && AllInRange(st.bits, st.threads) && s < Pow2(st.bits)
  {
    var slot := st.slots[s];
    && st.handles[s] >= 0
    && (Shareable(slot.meta.state) ==> RefCount(slot.meta) == Holders(st, s))
    && (Holders(st, s) > 0 ==> Shareable(slot.meta.state))
    && Total(st.bits, Ownership, st.threads, s) == (if slot.meta.state.Construction? then 1 else 0)
    && st.displacements[s] ==
       Passing(st.bits, st.slots, |st.slots|, s) + Total(st.bits, Displacing, st.threads, s)
  }

  /** What a thread knows about the slot it holds: the key it compared or wrote is still there, and
      the word it copied counted its own reference. */
  predicate Knows(bits: nat, slots: seq<Slot>, th: Thread)
    requires |slots| == Pow2(bits)
  {
    match th
    case Insert(key, _, _, i, at) => at.Publish? || at.Boost? ==> slots[Probe(bits, key, i)].key == key
    case Erase(key, i, at) =>
      && (at.Hide? || at.Take? || at.Clear? ==> slots[Probe(bits, key, i)].key == key)
      && (at.Take? ==> RefCount(at.copy) >= 1)
    case _ => true
  }

  ghost predicate Inv(st: State) {
    && Shaped(st)
    && AllInRange(st.bits, st.threads)
    && (forall t :: 0 <= t < |st.threads| ==> Knows(st.bits, st.slots, st.threads[t]))
    && (forall s :: 0 <= s < Pow2(st.bits) ==> SlotInv(st, s))
  }

  ghost function HoldersAfter(st: State, t: nat, e: Effect): int
    requires Shaped(st) && AllInRange(st.bits, st.threads) && t < |st.threads| && e.at < Pow2(st.bits)
  {
    Holders(st, e.at) + e.hand + RefsHeld(st.bits, e.thread, e.at) - RefsHeld(st.bits, st.threads[t], e.at)
  }

  ghost function OwnersAfter(st: State, t: nat, e: Effect): int
    requires Shaped(st) && AllInRange(st.bits, st.threads) && t < |st.threads| && e.at < Pow2(st.bits)
  {
    Total(st.bits, Ownership, st.threads, e.at)
    + (if Owns(st.bits, e.thread, e.at) then 1 else 0)
    - (if Owns(st.bits, st.threads[t], e.at) then 1 else 0)
  }

  /** What one step must get right at the slot it touches, in terms of the thread alone. */
  ghost predicate StepOk(st: State, t: nat, e: Effect)
    requires Shaped(st) && AllInRange(st.bits, st.threads) && t < |st.threads|
  {
    && e.at < Pow2(st.bits)
    && InRange(st.bits, e.thread)
    && var th, s, was := st.threads[t], e.at, st.slots[e.at];
       var holders := HoldersAfter(st, t, e);
       && st.handles[s] + e.hand >= 0
       && (Shareable(e.slot.meta.state) ==> RefCount(e.slot.meta) == holders)
       && (holders > 0 ==> Shareable(e.slot.meta.state))
       && OwnersAfter(st, t, e) == (if e.slot.meta.state.Construction? then 1 else 0)
       && (e.slot.key != was.key ==> Owns(st.bits, th, s))
       && Knows(st.bits, st.slots[s := e.slot], e.thread)
  }

  ghost predicate StepIsLocal(st: State, t: nat, e: Effect, s: nat)
    requires Shaped(st) && AllInRange(st.bits, st.threads) && t < |st.threads|
    requires e.at < Pow2(st.bits) && InRange(st.bits, e.thread) && s < Pow2(st.bits)
  {
    var th := st.threads[t];
    && (s != e.at ==> RefsHeld(st.bits, e.thread, s) == RefsHeld(st.bits, th, s))
    && (s != e.at ==> Owns(st.bits, e.thread, s) == Owns(st.bits, th, s))
    && Weight(st.bits, Displacing, e.thread, s) + Passes(st.bits, e.slot, e.at, s) ==
       Weight(st.bits, Displacing, th, s) + Passes(st.bits, st.slots[e.at], e.at, s)
       + (if s == e.at then e.displace else 0)
  }

  /** A step that is right about its own slot keeps the invariant of the whole table. */
  lemma {:induction false} StepKeepsInv(st: State, t: nat, e: Effect)
    requires Inv(st) && t < |st.threads| && StepOk(st, t, e)
    requires forall s :: 0 <= s < Pow2(st.bits) ==> StepIsLocal(st, t, e, s)
    ensures Inv(Apply(st, t, e))
  {
    var st' := Apply(st, t, e);
    forall s | 0 <= s < Pow2(st.bits)
      ensures SlotInv(st', s)
    {
      assert StepIsLocal(st, t, e, s);
      assert SlotInv(st, s);
      TotalAfterUpdate(st.bits, References, st.threads, t, e.thread, s);
      TotalAfterUpdate(st.bits, Ownership, st.threads, t, e.thread, s);
      TotalAfterUpdate(st.bits, Displacing, st.threads, t, e.thread, s);
      PassingAfterUpdate(st.bits, st.slots, |st.slots|, e.at, e.slot, s);
    }
    forall u | 0 <= u < |st.threads|
      ensures Knows(st.bits, st'.slots, st'.threads[u])
    {
      if u != t {
        OthersStillKnow(st, t, e, u);
      }
    }
  }

  /** Another thread's slot keeps its key: only the sole owner of a slot under construction writes it. */
  lemma {:induction false} OthersStillKnow(st: State, t: nat, e: Effect, u: nat)
    requires Inv(st) && t < |st.threads| && u < |st.threads| && u != t && StepOk(st, t, e)
    ensures Knows(st.bits, st.slots[e.at := e.slot], st.threads[u])
  {
    assert SlotInv(st, e.at);
    assert Knows(st.bits, st.slots, st.threads[u]);
    TotalCoversPair(st.bits, References, st.threads, u, t, e.at);
    TotalCoversPair(st.bits, Ownership, st.threads, u, t, e.at);
  }
}
