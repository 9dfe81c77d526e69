/** Charges, counts, displacements and clock updates of HyperClockTable between operations, when no
    thread is inside one. */
module ClockAccounts {
  import opened Arithmetic
  import opened ProbeSequence
  import opened ClockProtocol

  // ----- sums over the table

  /** The charges of the entries in the first `m` slots. */
  function Charged(slots: seq<Slot>, charges: seq<nat>, m: nat): nat
    requires m <= |slots| == |charges|
  {
    if m == 0 then 0
    else Charged(slots, charges, m - 1) + ChargeOf(slots[m - 1], charges[m - 1])
  }

  function ChargeOf(slot: Slot, charge: nat): nat {
    if Shareable(slot.meta.state) then charge else 0
  }

  /** The number of entries in the first `m` slots. */
  function Occupied(slots: seq<Slot>, m: nat): nat
    requires m <= |slots|
  {
    if m == 0 then 0 else Occupied(slots, m - 1) + ChargeOf(slots[m - 1], 1)
  }

  lemma {:induction false} ChargedAfterUpdate(
    slots: seq<Slot>, charges: seq<nat>, m: nat, e: nat, slot: Slot, charge: nat)
    requires m <= |slots| == |charges| && e < |slots|
    ensures Charged(slots[e := slot], charges[e := charge], m) ==
      Charged(slots, charges, m) + if e < m then ChargeOf(slot, charge) - ChargeOf(slots[e], charges[e]) else 0
    decreases m
  {
    if m > 0 {
      ChargedAfterUpdate(slots, charges, m - 1, e, slot, charge);
    }
  }

  lemma {:induction false} OccupiedAfterUpdate(slots: seq<Slot>, m: nat, e: nat, slot: Slot)
    requires m <= |slots| && e < |slots|
    ensures Occupied(slots[e := slot], m) ==
      Occupied(slots, m) + if e < m then ChargeOf(slot, 1) - ChargeOf(slots[e], 1) else 0
    decreases m
  {
    if m > 0 {
      OccupiedAfterUpdate(slots, m - 1, e, slot);
    }
  }

  /** A table without an empty slot is counted as full. */
  lemma {:induction false} FullTableIsCounted(slots: seq<Slot>, m: nat)
    requires m <= |slots| && forall s :: 0 <= s < m ==> Shareable(slots[s].meta.state)
    ensures Occupied(slots, m) == m
    decreases m
  {
    if m > 0 {
      FullTableIsCounted(slots, m - 1);
    }
  }

  lemma {:induction false} NothingCounted(bits: nat, slots: seq<Slot>, charges: seq<nat>, m: nat, s: nat)
    requires m <= |slots| == |charges| == Pow2(bits) && s < Pow2(bits)
    requires forall e :: 0 <= e < m ==> !Shareable(slots[e].meta.state)
    ensures Occupied(slots, m) == Charged(slots, charges, m) == Passing(bits, slots, m, s) == 0
    decreases m
  {
    if m > 0 {
      NothingCounted(bits, slots, charges, m - 1, s);
    }
  }

  // ----- standalone entries

  /** An entry outside the table; it is gone when its last reference is. */
  datatype Detached = Detached(charge: nat, refs: nat)

  function DetachedCharge(ds: seq<Detached>): nat {
    if ds == [] then 0
    else DetachedCharge(ds[..|ds| - 1]) + HeldCharge(ds[|ds| - 1])
  }

  function HeldCharge(d: Detached): nat {
    if d.refs > 0 then d.charge else 0
  }

  lemma DetachedOneMore(ds: seq<Detached>, d: Detached)
    ensures DetachedCharge(ds + [d]) == DetachedCharge(ds) + HeldCharge(d)
  {
    assert (ds + [d])[..|ds|] == ds;
  }

  lemma {:induction false} DetachedAfterUpdate(ds: seq<Detached>, i: nat, d: Detached)
    requires i < |ds|
    ensures DetachedCharge(ds[i := d]) == DetachedCharge(ds) - HeldCharge(ds[i]) + HeldCharge(d)
  {
    var last := |ds| - 1;
    if i == last {
      assert ds[i := d][..last] == ds[..last];
    } else {
      DetachedAfterUpdate(ds[..last], i, d);
      assert ds[i := d][..last] == ds[..last][i := d];
    }
  }

  // ----- displacements

  /** No operation is inside the slot, and it has no more releases than acquires. */
  predicate Settled(slot: Slot) {
    && !slot.meta.state.Construction?
    && (Shareable(slot.meta.state) ==> 0 <= slot.meta.release <= slot.meta.acquire)
  }

  /** Between operations every slot is settled and its displacement count is exactly the number of
      entries that passed over it. */
  ghost predicate Sound(bits: nat, slots: seq<Slot>, displacements: seq<int>) {
    && |slots| == |displacements| == Pow2(bits)
    && (forall s :: 0 <= s < Pow2(bits) ==> Settled(slots[s]))
    && (forall s :: 0 <= s < Pow2(bits) ==> displacements[s] == Passing(bits, slots, Pow2(bits), s))
  }

  /** `now` is `was` with `delta` added to the first `j` slots of the key's probe sequence. */
  ghost predicate Shifted(bits: nat, was: seq<int>, now: seq<int>, key: HashedKey, j: nat, delta: int) {
    && |was| == |now| == Pow2(bits)
    && forall s: nat :: s < Pow2(bits) ==> now[s] == was[s] + if Rank(bits, key, s) < j then delta else 0
  }

  lemma ShiftOneMore(bits: nat, was: seq<int>, now: seq<int>, key: HashedKey, j: nat, delta: int)
    requires Shifted(bits, was, now, key, j, delta) && j < Pow2(bits)
    ensures var s := Probe(bits, key, j); Shifted(bits, was, now[s := now[s] + delta], key, j + 1, delta)
  {
    var p := Probe(bits, key, j);
    forall s: nat | s < Pow2(bits)
      ensures now[p := now[p] + delta][s] == was[s] + if Rank(bits, key, s) < j + 1 then delta else 0
    {
      RankOfProbe(bits, key, j);
    }
  }

  /** Taking back what was added leaves the counts as they were found. */
  lemma ShiftBack(bits: nat, was: seq<int>, mid: seq<int>, now: seq<int>, key: HashedKey, j: nat)
    requires Shifted(bits, was, mid, key, j, 1) && Shifted(bits, mid, now, key, j, -1)
    ensures now == was
  {
    forall s: nat | s < Pow2(bits)
      ensures now[s] == was[s]
    {
      assert mid[s] == was[s] + if Rank(bits, key, s) < j then 1 else 0;
    }
  }

  /** One slot changes, and the displacements by as much as the old and the new entry passed over. */
  lemma SlotChanges(bits: nat, slots: seq<Slot>, was: seq<int>, now: seq<int>, e: nat, slot: Slot)
    requires Sound(bits, slots, was) && e < Pow2(bits) && Settled(slot) && |now| == Pow2(bits)
    requires forall s: nat :: s < Pow2(bits) ==>
      now[s] == was[s] + Passes(bits, slot, e, s) - Passes(bits, slots[e], e, s)
    ensures Sound(bits, slots[e := slot], now)
  {
    forall s | 0 <= s < Pow2(bits)
      ensures now[s] == Passing(bits, slots[e := slot], Pow2(bits), s)
    {
      PassingAfterUpdate(bits, slots, Pow2(bits), e, slot, s);
    }
  }

  /** A new entry in an empty slot, after one was added on the way to it. */
  lemma EntryArrives(bits: nat, slots: seq<Slot>, was: seq<int>, now: seq<int>, e: nat, slot: Slot)
    requires Sound(bits, slots, was) && e < Pow2(bits) && Settled(slot)
    requires slots[e].meta.state.Empty? && Shareable(slot.meta.state)
    requires Shifted(bits, was, now, slot.key, Rank(bits, slot.key, e), 1)
    ensures Sound(bits, slots[e := slot], now)
  {
    SlotChanges(bits, slots, was, now, e, slot);
  }

  /** An entry leaves, and one is taken back on the way to it. */
  lemma EntryLeaves(bits: nat, slots: seq<Slot>, was: seq<int>, now: seq<int>, e: nat, slot: Slot)
    requires Sound(bits, slots, was) && e < Pow2(bits) && slot.meta.state.Empty?
    requires Shareable(slots[e].meta.state)
    requires Shifted(bits, was, now, slots[e].key, Rank(bits, slots[e].key, e), -1)
    ensures Sound(bits, slots[e := slot], now)
  {
    SlotChanges(bits, slots, was, now, e, slot);
  }

  /** Counters and visibility of an entry do not matter to the displacements. */
  lemma EntryStays(bits: nat, slots: seq<Slot>, displacements: seq<int>, e: nat, slot: Slot)
    requires Sound(bits, slots, displacements) && e < Pow2(bits) && Settled(slot)
    requires Shareable(slots[e].meta.state) == Shareable(slot.meta.state) && slots[e].key == slot.key
    ensures Sound(bits, slots[e := slot], displacements)
  {
    SlotChanges(bits, slots, displacements, displacements, e, slot);
  }

  // ----- the clock

  predicate Unreferenced(m: Meta) {
    Shareable(m.state) && m.acquire == m.release
  }

  /** What one undisturbed ClockUpdate, and freeing the slot if it says so, makes of a word. */
  function Ticked(m: Meta): Meta {
    if !Unreferenced(m) then m
    else if m.state.Visible? && m.acquire > 0 then
      var count := if m.acquire - 1 < MAX_COUNTDOWN - 1 then m.acquire - 1 else MAX_COUNTDOWN - 1;
      Meta(count, count, Visible)
    else CLEARED
  }

  function TickedTimes(m: Meta, k: nat): Meta {
    if k == 0 then m else Ticked(TickedTimes(m, k - 1))
  }

  /** Three updates remove every unreferenced entry that is invisible or counts down from two or less,
      and bring every other one to zero. */
  lemma {:induction false} TicksExpire(m: Meta, k: nat)
    requires Unreferenced(m) && m.acquire >= 0 && k >= MAX_COUNTDOWN
    ensures m.state.Invisible? || m.acquire < MAX_COUNTDOWN ==> TickedTimes(m, k).state.Empty?
    ensures TickedTimes(m, k) == Meta(0, 0, Visible) || TickedTimes(m, k) == CLEARED
    decreases k
  {
    if k == MAX_COUNTDOWN {
      var one := Ticked(m);
      var two := Ticked(one);
      assert TickedTimes(m, 1) == Ticked(TickedTimes(m, 0));
      assert TickedTimes(m, 2) == two;
      assert TickedTimes(m, 3) == Ticked(two);
    } else {
      TicksExpire(m, k - 1);
    }
  }

  function Least(a: int, b: int): int {
    if a < b then a else b
  }

  function Greatest(a: int, b: int): int {
    if a < b then b else a
  }

  /** How long an unreferenced visible entry lives: as many updates as its countdown says, but no more than three,
      each of which leaves one less; the next one clears it. */
  lemma {:induction false} TicksLifetime(m: Meta, k: nat)
    requires Unreferenced(m) && m.state.Visible? && m.acquire >= 0
    ensures k > Least(m.acquire, MAX_COUNTDOWN) ==> TickedTimes(m, k).state.Empty?
    ensures 0 < k <= Least(m.acquire, MAX_COUNTDOWN) ==>
      var left := Least(m.acquire, MAX_COUNTDOWN) - k; TickedTimes(m, k) == Meta(left, left, Visible)
    decreases k
  {
    if k > 0 {
      TicksLifetime(m, k - 1);
    }
  }

  /** The clock never touches an entry that is referenced. */
  lemma {:induction false} TicksSpareReferenced(m: Meta, k: nat)
    requires !Unreferenced(m)
    ensures TickedTimes(m, k) == m
    decreases k
  {
    if k > 0 {
      TicksSpareReferenced(m, k - 1);
    }
  }

  /** How often a clock hand that goes from `a` up to `b` points at slot `s` of `n`. */
  function Visits(a: nat, b: nat, n: nat, s: nat): nat
    requires n > 0
  {
    if b <= a then 0 else Visits(a, b - 1, n, s) + if (b - 1) % n == s then 1 else 0
  }

  lemma {:induction false} VisitsAdd(a: nat, b: nat, c: nat, n: nat, s: nat)
    requires n > 0 && a <= b <= c
    ensures Visits(a, c, n, s) == Visits(a, b, n, s) + Visits(b, c, n, s)
    decreases c
  {
    if b < c {
      VisitsAdd(a, b, c - 1, n, s);
    }
  }

  lemma {:induction false} VisitCounts(a: nat, b: nat, n: nat, q: nat)
    requires n > 0 && a <= q < b
    ensures Visits(a, b, n, q % n) >= 1
    decreases b
  {
    if q < b - 1 {
      VisitCounts(a, b - 1, n, q);
    }
  }

  /** A full round points at every slot, wherever it starts. */
  lemma RoundVisits(a: nat, n: nat, s: nat)
    requires s < n
    ensures Visits(a, a + n, n, s) >= 1
  {
    var base := a / n * n;
    DivisionIsUnique(base + s, n, a / n, s);
    ModPlusN(base + s, n);
    RoundFrom(a, n, s, base, a % n);
  }

  lemma RoundFrom(a: nat, n: nat, s: nat, base: nat, r: nat)
    requires s < n && r < n && a == base + r && (base + s) % n == s && (base + s + n) % n == s
    ensures Visits(a, a + n, n, s) >= 1
  {
    VisitCounts(a, a + n, n, if s >= r then base + s else base + s + n);
  }

  lemma ThreeRoundsVisit(a: nat, b: nat, n: nat, s: nat)
    requires s < n && a + MAX_COUNTDOWN * n <= b
    ensures Visits(a, b, n, s) >= MAX_COUNTDOWN
  {
    RoundVisits(a, n, s);
    RoundVisits(a + n, n, s);
    RoundVisits(a + n + n, n, s);
    VisitsAdd(a, a + n, a + n + n, n, s);
    VisitsAdd(a, a + n + n, a + n + n + n, n, s);
    VisitsAdd(a, a + n + n + n, b, n, s);
  }

  /** `now` is `was` after an undisturbed hand went from `a` to `b`. */
  ghost predicate Swept(was: seq<Slot>, now: seq<Slot>, a: nat, b: nat) {
    && |was| == |now| > 0
    && forall s: nat :: s < |was| ==> now[s] == SweptSlot(was[s], Visits(a, b, |was|, s))
  }

  function SweptSlot(slot: Slot, visits: nat): Slot {
    WithMeta(slot, TickedTimes(slot.meta, visits))
  }

  /** The slots after that sweep. */
  ghost function SweptSlots(was: seq<Slot>, a: nat, b: nat): seq<Slot>
    requires |was| > 0
  {
    seq(|was|, s requires 0 <= s < |was| => SweptSlot(was[s], Visits(a, b, |was|, s)))
  }

  lemma SweptIsSwept(was: seq<Slot>, now: seq<Slot>, a: nat, b: nat)
    requires Swept(was, now, a, b)
    ensures now == SweptSlots(was, a, b)
  {
  }

  lemma SweptOneMore(was: seq<Slot>, now: seq<Slot>, a: nat, b: nat)
    requires Swept(was, now, a, b) && a <= b
    ensures var s := b % |was|;
      Swept(was, now[s := WithMeta(now[s], Ticked(now[s].meta))], a, b + 1)
  {
  }

  /** What a sweep of three rounds leaves: nothing unreferenced that was invisible or had a countdown
      below three, and every unreferenced entry at countdown zero. */
  ghost predicate Exhausted(was: seq<Slot>, now: seq<Slot>) {
    && |was| == |now|
    && forall s :: 0 <= s < |was| && Unreferenced(was[s].meta) ==>
      && (was[s].meta.state.Invisible? || was[s].meta.acquire < MAX_COUNTDOWN ==> now[s].meta.state.Empty?)
      && (Shareable(now[s].meta.state) ==> now[s] == WithMeta(was[s], Meta(0, 0, Visible)))
  }

  lemma ThreeRoundsExhaust(bits: nat, was: seq<Slot>, displacements: seq<int>, now: seq<Slot>, a: nat, b: nat)
    requires Sound(bits, was, displacements) && Swept(was, now, a, b) && a + MAX_COUNTDOWN * |was| <= b
    ensures Exhausted(was, now)
  {
    forall s | 0 <= s < |was| && Unreferenced(was[s].meta)
      ensures was[s].meta.state.Invisible? || was[s].meta.acquire < MAX_COUNTDOWN ==> now[s].meta.state.Empty?
      ensures Shareable(now[s].meta.state) ==> now[s] == WithMeta(was[s], Meta(0, 0, Visible))
    {
      assert Settled(was[s]);
      ThreeRoundsVisit(a, b, |was|, s);
      TicksExpire(was[s].meta, Visits(a, b, |was|, s));
    }
  }

  /** What three rounds do not remove: entries that are referenced, or visible with a countdown of three or more. */
  predicate Lasting(slot: Slot) {
    && Shareable(slot.meta.state)
    && (slot.meta.acquire != slot.meta.release || (slot.meta.state.Visible? && slot.meta.acquire >= MAX_COUNTDOWN))
  }

  /** The charges of those among the first `m` slots. */
  function LastingCharge(slots: seq<Slot>, charges: seq<nat>, m: nat): nat
    requires m <= |slots| == |charges|
  {
    if m == 0 then 0
    else LastingCharge(slots, charges, m - 1) + if Lasting(slots[m - 1]) then charges[m - 1] else 0
  }

  /** Once nothing more can be evicted, no more is charged than those. */
  lemma {:induction false} ExhaustedCharge(was: seq<Slot>, now: seq<Slot>, charges: seq<nat>, m: nat)
    requires Exhausted(was, now) && m <= |was| == |charges|
    requires forall s :: 0 <= s < |was| && !Shareable(was[s].meta.state) ==> !Shareable(now[s].meta.state)
    ensures Charged(now, charges, m) <= LastingCharge(was, charges, m)
    decreases m
  {
    if m > 0 {
      ExhaustedCharge(was, now, charges, m - 1);
    }
  }

  /** Nothing that was referenced is touched. */
  ghost predicate Spares(was: seq<Slot>, now: seq<Slot>) {
    && |was| == |now|
    && forall s :: 0 <= s < |was| && !Unreferenced(was[s].meta) ==> now[s] == was[s]
  }

  lemma SweepSpares(was: seq<Slot>, now: seq<Slot>, a: nat, b: nat)
    requires Swept(was, now, a, b)
    ensures Spares(was, now)
  {
    forall s: nat | s < |was| && !Unreferenced(was[s].meta)
      ensures now[s] == was[s]
    {
      TicksSpareReferenced(was[s].meta, Visits(a, b, |was|, s));
    }
  }

  predicate Held(slot: Slot) {
    Shareable(slot.meta.state) && RefCount(slot.meta) > 0
  }

  /** Whoever holds a reference still holds it, on the same entry with the same charge. */
  ghost predicate HandlesKept(was: seq<Slot>, before: seq<nat>, now: seq<Slot>, after: seq<nat>) {
    && |was| == |before| == |now| == |after|
    && forall s :: 0 <= s < |was| && Held(was[s]) ==>
      && now[s].key == was[s].key
      && now[s].meta.state == was[s].meta.state
      && RefCount(now[s].meta) == RefCount(was[s].meta)
      && after[s] == before[s]
  }

  predicate Matches(slot: Slot, key: HashedKey) {
    slot.meta.state.Visible? && slot.key == key
  }

  ghost predicate Shown(slots: seq<Slot>, key: HashedKey) {
    exists s :: 0 <= s < |slots| && Matches(slots[s], key)
  }

  /** The entry that matched a redundant insert, used once more. */
  function BoostedSlot(slot: Slot, countdown: nat): (r: Slot)
    ensures r.key == slot.key && r.meta.state == slot.meta.state && RefCount(r.meta) == RefCount(slot.meta)
    ensures r.meta.acquire == slot.meta.acquire + countdown
  {
    AddRelease(AddAcquire(slot, countdown), countdown)
  }

  /** A visible entry of the key was boosted, and nothing else changed. */
  ghost predicate Boosted(was: seq<Slot>, now: seq<Slot>, key: HashedKey, countdown: nat) {
    exists s :: 0 <= s < |was| && Matches(was[s], key) && now == was[s := BoostedSlot(was[s], countdown)]
  }

  /** Every entry stays what it is, and only a slot that then shows the key has changed. */
  ghost predicate Joins(was: seq<Slot>, now: seq<Slot>, key: HashedKey) {
    && |was| == |now|
    && (forall s :: 0 <= s < |was| ==> now[s] == was[s] || Matches(now[s], key))
    && (forall s :: 0 <= s < |was| && Shareable(was[s].meta.state) ==>
          now[s].key == was[s].key && now[s].meta.state == was[s].meta.state)
  }

  lemma BoostJoins(was: seq<Slot>, now: seq<Slot>, s: nat, key: HashedKey, countdown: nat)
    requires s < |was| && Matches(was[s], key) && now == was[s := BoostedSlot(was[s], countdown)]
    ensures Joins(was, now, key) && Matches(now[s], key) && now[s].meta.acquire == was[s].meta.acquire + countdown
  {
  }

  /** Everything that an eviction can remove is gone, but for what now shows the key. */
  ghost predicate Drained(was: seq<Slot>, now: seq<Slot>, key: HashedKey) {
    && |was| == |now|
    && forall s :: 0 <= s < |was| && Shareable(was[s].meta.state) && !Lasting(was[s]) ==>
      now[s].meta.state.Empty? || Matches(now[s], key)
  }

  lemma JoinsDrained(was: seq<Slot>, mid: seq<Slot>, now: seq<Slot>, key: HashedKey)
    requires Exhausted(was, mid) && Joins(mid, now, key)
    ensures Drained(was, now, key)
  {
  }

  lemma ArrivalKeepsHandles(was: seq<Slot>, mid: seq<Slot>, charges: seq<nat>, s: nat, slot: Slot, charge: nat)
    requires Spares(was, mid) && |charges| == |was| && s < |mid| && mid[s].meta.state.Empty?
    ensures HandlesKept(was, charges, mid[s := slot], charges[s := charge])
  {
  }

  lemma BoostKeepsHandles(
    was: seq<Slot>, mid: seq<Slot>, now: seq<Slot>, charges: seq<nat>, key: HashedKey, countdown: nat)
    requires Spares(was, mid) && |charges| == |was| && Boosted(mid, now, key, countdown)
    ensures HandlesKept(was, charges, now, charges)
  {
  }

  /** A boost moves no charge, and the key is there. */
  lemma BoostMovesNothing(was: seq<Slot>, now: seq<Slot>, charges: seq<nat>, key: HashedKey, countdown: nat)
    requires Boosted(was, now, key, countdown) && |charges| == |was|
    ensures |now| == |was| && Shown(now, key)
    ensures Charged(now, charges, |was|) == Charged(was, charges, |was|) && Occupied(now, |was|) == Occupied(was, |was|)
  {
    var s :| 0 <= s < |was| && Matches(was[s], key) && now == was[s := BoostedSlot(was[s], countdown)];
    ChargedAfterUpdate(was, charges, |was|, s, now[s], charges[s]);
    assert charges[s := charges[s]] == charges && Matches(now[s], key);
    OccupiedAfterUpdate(was, |was|, s, now[s]);
  }

  // ----- finding a key

  /** A search that has reached probe `i` may stop if nothing passed over that slot: whatever matches
      is behind it. */
  lemma NothingBeyond(bits: nat, slots: seq<Slot>, displacements: seq<int>, key: HashedKey, i: nat, e: nat)
    requires Sound(bits, slots, displacements) && i < Pow2(bits) && e < Pow2(bits) && Matches(slots[e], key)
    requires displacements[Probe(bits, key, i)] == 0 || i + 1 == Pow2(bits)
    ensures Rank(bits, key, e) <= i
  {
    if Rank(bits, key, e) > i {
      RankOfProbe(bits, key, i);
      PassingCovers(bits, slots, Pow2(bits), e, Probe(bits, key, i));
    }
  }

  /** Nothing changed but stray acquire counts on empty slots. */
  ghost predicate StrayOnly(was: seq<Slot>, now: seq<Slot>) {
    && |was| == |now|
    && forall s :: 0 <= s < |was| ==>
      if Shareable(was[s].meta.state) then now[s] == was[s] else now[s].meta.state == was[s].meta.state
  }

  function Hidden(slot: Slot): (r: Slot)
    ensures r.key == slot.key && r.meta.state.Invisible? && r.meta.acquire == slot.meta.acquire
    ensures RefCount(r.meta) == RefCount(slot.meta)
  {
    WithMeta(slot, slot.meta.(state := Invisible))
  }

  /** What Erase has done once it is past the first `i` probes. */
  ghost predicate ErasedTo(bits: nat, was: seq<Slot>, now: seq<Slot>, key: HashedKey, i: nat) {
    && |was| == |now| == Pow2(bits)
    && forall s: nat :: s < Pow2(bits) ==>
      if Matches(was[s], key) && Rank(bits, key, s) < i then
        if Held(was[s]) then now[s] == Hidden(was[s]) else now[s].meta.state.Empty?
      else if Shareable(was[s].meta.state) then now[s] == was[s]
      else now[s].meta.state == was[s].meta.state
  }

  lemma ErasedOneMore(bits: nat, was: seq<Slot>, now: seq<Slot>, key: HashedKey, i: nat, slot: Slot)
    requires ErasedTo(bits, was, now, key, i) && i < Pow2(bits)
    requires var s := Probe(bits, key, i);
      if Matches(was[s], key) then if Held(was[s]) then slot == Hidden(was[s]) else slot.meta.state.Empty?
      else if Shareable(was[s].meta.state) then slot == was[s]
      else slot.meta.state == was[s].meta.state
    ensures ErasedTo(bits, was, now[Probe(bits, key, i) := slot], key, i + 1)
  {
    var p := Probe(bits, key, i);
    RankOfProbe(bits, key, i);
  }

  lemma ErasedAll(bits: nat, was: seq<Slot>, now: seq<Slot>, displacements: seq<int>, key: HashedKey, i: nat)
    requires ErasedTo(bits, was, now, key, i + 1) && i < Pow2(bits)
    requires Sound(bits, now, displacements)
    requires displacements[Probe(bits, key, i)] == 0 || i + 1 == Pow2(bits)
    ensures ErasedTo(bits, was, now, key, Pow2(bits))
  {
    forall s: nat | s < Pow2(bits) && Matches(was[s], key)
      ensures Rank(bits, key, s) < i + 1
    {
      if Rank(bits, key, s) >= i + 1 {
        NothingBeyond(bits, now, displacements, key, i, s);
      }
    }
  }
}
