/** HyperClockTable and its base class, one operation at a time: eviction, charging, and what every
    operation leaves behind on each of its paths. */
module ClockTable {
  import opened Arithmetic
  import opened ProbeSequence
  import opened ClockProtocol
  import opened ClockAccounts
  import opened Options
  import opened CacheTypes

  /** What a cache user holds: an entry of the table, or a standalone one. */
  datatype Handle = InTable(s: nat) | Alone(id: nat)

  function InitialCountdown(priority: Priority): (c: nat)
    ensures 0 < c <= MAX_COUNTDOWN
  {
    match priority
    case High => 3
    case Low => 2
    case Bottom => 1
  }

  datatype Op =
    | DoInsert(key: HashedKey, charge: nat, priority: Priority, wantHandle: bool)
    | DoLookup(key: HashedKey)
    | DoErase(key: HashedKey)
    | DoStandalone(charge: nat, allowUncharged: bool)
    | DoRef(handle: Handle)
    | DoRelease(handle: Handle, useful: bool, eraseIfLast: bool)
    | DoPurge

  /** What an operation asks to be charged. */
  function ChargeIn(op: Op): nat {
    match op
    case DoInsert(_, charge, _, _) => charge
    case DoStandalone(charge, _) => charge
    case _ => 0
  }

  /** How high the usage can get with a charge and no strict limit: where it was, to the capacity, to twice the
      charge, or to what no eviction removes and the charge. */
  function Peak(before: int, charge: nat, capacity: nat, unyielding: nat): int {
    Greatest(Greatest(before, capacity), Greatest(2 * charge, unyielding + charge))
  }

  /** A state between two operations, as far as the usage is concerned. */
  datatype Moment = Moment(
    slots: seq<Slot>, charges: seq<nat>, standalone: seq<Detached>, fixedUsage: nat, usage: int)
  {
    ghost predicate Right() {
      |slots| == |charges| && usage == fixedUsage + Charged(slots, charges, |slots|) + DetachedCharge(standalone)
    }

    /** What is charged for entries that an eviction does not remove. */
    ghost function Unyielding(): nat
      requires |slots| == |charges|
    {
      fixedUsage + LastingCharge(slots, charges, |slots|) + DetachedCharge(standalone)
    }
  }

  /** What an operation that charges nothing does: a lookup refers to a visible entry of the key if there is one, an
      erase leaves none, a purge leaves nothing that is unreferenced, and a reference is added or given back. */
  ghost predicate UseIsDone(m: Moment, op: Op, m': Moment) {
    match op
    case DoLookup(key) =>
      if Shown(m.slots, key) then
        exists s :: 0 <= s < |m.slots| && s < |m'.slots| && Matches(m.slots[s], key) &&
          m'.slots[s] == AddAcquire(m.slots[s], 1)
      else StrayOnly(m.slots, m'.slots)
    case DoErase(key) => !Shown(m'.slots, key)
    case DoPurge =>
      |m'.slots| == |m.slots| &&
      forall s :: 0 <= s < |m.slots| && Unreferenced(m.slots[s].meta) ==> m'.slots[s].meta.state.Empty?
    case DoRef(InTable(s)) =>
      s < |m.slots| && Held(m.slots[s]) ==> m'.slots == m.slots[s := AddAcquire(m.slots[s], 1)]
    case DoRef(Alone(id)) =>
      id < |m.standalone| && m.standalone[id].refs > 0 ==>
        id < |m'.standalone| && m'.standalone[id].refs == m.standalone[id].refs + 1
    case DoRelease(InTable(s), useful, eraseIfLast) =>
      s < |m.slots| && Held(m.slots[s]) ==>
        m'.slots == m.slots[s := ReleasedSlot(m.slots[s], useful,
          RefCount(m.slots[s].meta) == 1 && (eraseIfLast || m.slots[s].meta.state.Invisible?))]
    case DoRelease(Alone(id), _, _) =>
      id < |m.standalone| && m.standalone[id].refs > 0 ==>
        id < |m'.standalone| && m'.standalone[id].refs == m.standalone[id].refs - 1
    case _ => true
  }

  ghost predicate StepIsBounded(m: Moment, op: Op, m': Moment, capacity: nat, strict: bool) {
    match m
    case Moment(slots, charges, _, fixedUsage, usage) =>
      && m.Right() && m'.Right() && |m'.slots| == |slots| && m'.fixedUsage == fixedUsage
      && (strict && usage <= capacity ==> m'.usage <= capacity)
      && (!strict ==> m'.usage <= Peak(usage, ChargeIn(op), capacity, m.Unyielding()))
      && (op.DoInsert? ==> HandlesKept(slots, charges, m'.slots, m'.charges))
      && UseIsDone(m, op, m')
  }

  ghost predicate IsTrace(trace: seq<Moment>, ops: seq<Op>, capacity: nat, strict: bool) {
    && |trace| == |ops| + 1
    && forall x :: 0 <= x < |ops| ==> StepIsBounded(trace[x], ops[x], trace[x + 1], capacity, strict)
  }

  /** Over a whole run without a strict limit, the usage stays within the capacity, what it was at first, twice the
      largest charge, or the largest charge and the most that no eviction would have removed in any of its states. */
  lemma {:induction false} UsageIsBounded(
    trace: seq<Moment>, ops: seq<Op>, capacity: nat, largest: nat, unyielding: nat, x: nat)
    requires IsTrace(trace, ops, capacity, false) && x < |trace|
    requires forall y :: 0 <= y < |ops| ==> ChargeIn(ops[y]) <= largest
    requires forall y :: 0 <= y < |ops| && trace[y].Right() ==> trace[y].Unyielding() <= unyielding
    ensures trace[x].usage <= Peak(trace[0].usage, largest, capacity, unyielding)
    decreases x
  {
    if x > 0 {
      UsageIsBounded(trace, ops, capacity, largest, unyielding, x - 1);
      assert StepIsBounded(trace[x - 1], ops[x - 1], trace[x], capacity, false);
    }
  }

  /** Nothing is referenced, stands alone or has a countdown of three or more. */
  ghost predicate NothingLasts(m: Moment) {
    m.standalone == [] && forall s :: 0 <= s < |m.slots| ==> !Lasting(m.slots[s])
  }

  lemma {:induction false} NothingLastingCharged(slots: seq<Slot>, charges: seq<nat>, m: nat)
    requires m <= |slots| == |charges| && forall s :: 0 <= s < |slots| ==> !Lasting(slots[s])
    ensures LastingCharge(slots, charges, m) == 0
    decreases m
  {
    if m > 0 {
      NothingLastingCharged(slots, charges, m - 1);
    }
  }

  /** If that is so in every state of the run, no eviction falls short: the usage stays within the capacity, what it
      was at first, or twice the largest charge, or that charge alone beside the table itself. */
  lemma UsageIsBoundedWhenNothingLasts(trace: seq<Moment>, ops: seq<Op>, capacity: nat, largest: nat, x: nat)
    requires IsTrace(trace, ops, capacity, false) && x < |trace|
    requires forall y :: 0 <= y < |ops| ==> ChargeIn(ops[y]) <= largest
    requires forall y :: 0 <= y < |ops| ==> NothingLasts(trace[y])
    ensures trace[x].usage <= Peak(trace[0].usage, largest, capacity, trace[0].fixedUsage)
  {
    forall y | 0 <= y < |ops| && trace[y].Right()
      ensures trace[y].Unyielding() <= trace[0].fixedUsage
    {
      assert NothingLasts(trace[y]);
      NothingLastingCharged(trace[y].slots, trace[y].charges, |trace[y].slots|);
      SameFixedUsage(trace, ops, capacity, y);
    }
    UsageIsBounded(trace, ops, capacity, largest, trace[0].fixedUsage, x);
  }

  lemma {:induction false} SameFixedUsage(trace: seq<Moment>, ops: seq<Op>, capacity: nat, y: nat)
    requires IsTrace(trace, ops, capacity, false) && y < |trace|
    ensures trace[y].fixedUsage == trace[0].fixedUsage
    decreases y
  {
    if y > 0 {
      SameFixedUsage(trace, ops, capacity, y - 1);
      assert StepIsBounded(trace[y - 1], ops[y - 1], trace[y], capacity, false);
    }
  }

  class HyperClockTable {
    const bits: nat

    /** The charge of the table itself, if metadata is charged. */
    const fixedUsage: nat

    /** The slots, the charges of their entries and their displacement counts. */
    const slots: array<Slot>
    const charges: array<nat>
    const displacements: array<int>

    var usage: int
    var occupancy: int
    var standaloneUsage: int
    var clockPointer: nat
    var standalone: seq<Detached>

    constructor (bits: nat, fixedUsage: nat)
      ensures Valid() && fresh(slots) && fresh(charges) && fresh(displacements)
      ensures this.bits == bits && usage == this.fixedUsage == fixedUsage && occupancy == 0 && standalone == []
    {
      this.bits, this.fixedUsage := bits, fixedUsage;
      slots := new Slot[Pow2(bits)](_ => Slot(CLEARED, HashedKey(0, 0)));
      charges := new nat[Pow2(bits)](_ => 0);
      displacements := new int[Pow2(bits)](_ => 0);
      usage, occupancy, standaloneUsage, clockPointer, standalone := fixedUsage, 0, 0, 0, [];
      new;
      forall s | 0 <= s < Pow2(bits)
        ensures Occupied(slots[..], Pow2(bits)) == Charged(slots[..], charges[..], Pow2(bits)) == 0
        ensures displacements[..][s] == Passing(bits, slots[..], Pow2(bits), s)
      {
        NothingCounted(bits, slots[..], charges[..], Pow2(bits), s);
      }
      NothingCounted(bits, slots[..], charges[..], Pow2(bits), 0);
    }

    ghost predicate Shape()
      reads this
    {
      slots.Length == charges.Length == displacements.Length == Pow2(bits)
    }

    ghost predicate Sound()
      reads this, slots, displacements
    {
      Shape() && ClockAccounts.Sound(bits, slots[..], displacements[..])
    }

    ghost function TableCharge(): nat
      requires Shape()
      reads this, slots, charges
    {
      Charged(slots[..], charges[..], Pow2(bits))
    }

    ghost function Entries(): nat
      requires Shape()
      reads this, slots
    {
      Occupied(slots[..], Pow2(bits))
    }

    method FirstProbe(key: HashedKey) returns (s: nat)
      ensures s == Probe(bits, key, 0)
    {
      s := key.data1 % Pow2(bits);
    }

    method NextProbe(key: HashedKey, current: nat, ghost i: nat) returns (s: nat)
      requires current == Probe(bits, key, i)
      ensures s == Probe(bits, key, i + 1)
    {
      s := (current + Increment(key)) % Pow2(bits);
    }

    /** Take one back from every slot of the probe sequence before `s`. */
    method Rollback(key: HashedKey, s: nat)
      requires Shape() && s < Pow2(bits)
      modifies displacements
      ensures Shifted(bits, old(displacements[..]), displacements[..], key, Rank(bits, key, s), -1)
    {
      var current := FirstProbe(key);
      ghost var j := 0;
      while current != s
        invariant j <= Rank(bits, key, s) && current == Probe(bits, key, j)
        invariant Shifted(bits, old(displacements[..]), displacements[..], key, j, -1)
        decreases Rank(bits, key, s) - j
      {
        ghost var before := displacements[..];
        displacements[current] := displacements[current] - 1;
        assert displacements[..] == before[current := before[current] - 1];
        ShiftOneMore(bits, old(displacements[..]), before, key, j, -1);
        current := NextProbe(key, current, j);
        j := j + 1;
      }
      RankOfProbe(bits, key, j);
    }

    /** ClockUpdate with nobody in between: skip the slot, count it down, or take it over. */
    method ClockUpdate(s: nat) returns (evicting: bool)
      requires Shape() && s < Pow2(bits)
      modifies slots
      ensures evicting == (Unreferenced(old(slots[s].meta)) && Ticked(old(slots[s].meta)) == CLEARED)
      ensures slots[..] == old(slots[..])[s :=
        WithMeta(old(slots[s]), if evicting then OWNED else Ticked(old(slots[s].meta)))]
    {
      evicting := false;
      var meta := slots[s].meta;
      if meta.acquire != meta.release {
        return;
      }
      if !Shareable(meta.state) {
        return;
      }
      if meta.state.Visible? && meta.acquire > 0 {
        var count := if meta.acquire - 1 < MAX_COUNTDOWN - 1 then meta.acquire - 1 else MAX_COUNTDOWN - 1;
        slots[s] := WithMeta(slots[s], Meta(count, count, Visible));
        return;
      }
      slots[s] := WithMeta(slots[s], OWNED);
      evicting := true;
    }

    /** MarkEmpty on a slot that was taken over, after its displacements were taken back. */
    method Clear(s: nat, ghost was: seq<Slot>, ghost before: seq<int>)
      requires Shape() && s < Pow2(bits) && ClockAccounts.Sound(bits, was, before) && Shareable(was[s].meta.state)
      requires slots[..] == was[s := WithMeta(was[s], OWNED)]
      requires Shifted(bits, before, displacements[..], was[s].key, Rank(bits, was[s].key, s), -1)
      modifies slots
      ensures Sound() && slots[..] == was[s := WithMeta(was[s], CLEARED)]
      ensures TableCharge() + charges[s] == Charged(was, charges[..], Pow2(bits))
      ensures Entries() + 1 == Occupied(was, Pow2(bits))
    {
      slots[s] := WithMeta(slots[s], CLEARED);
      assert slots[..] == was[s := WithMeta(was[s], CLEARED)];
      EntryLeaves(bits, was, before, displacements[..], s, slots[s]);
      ChargedAfterUpdate(was, charges[..], Pow2(bits), s, slots[s], charges[s]);
      assert charges[..][s := charges[s]] == charges[..];
      OccupiedAfterUpdate(was, Pow2(bits), s, slots[s]);
    }

    /** One slot's turn in Evict. */
    method EvictSlot(s: nat) returns (freedCharge: nat, freedCount: nat)
      requires Sound() && s < Pow2(bits)
      modifies slots, displacements
      ensures Sound()
      ensures slots[..] == old(slots[..])[s := WithMeta(old(slots[s]), Ticked(old(slots[s].meta)))]
      ensures TableCharge() + freedCharge == old(TableCharge()) && Entries() + freedCount == old(Entries())
      ensures freedCharge > 0 ==> freedCount > 0
    {
      ghost var was := slots[..];
      freedCharge, freedCount := 0, 0;
      var evicting := ClockUpdate(s);
      if evicting {
        Rollback(slots[s].key, s);
        freedCharge, freedCount := charges[s], 1;
        Clear(s, was, old(displacements[..]));
      } else {
        EntryStays(bits, was, displacements[..], s, slots[s]);
        ChargedAfterUpdate(was, charges[..], Pow2(bits), s, slots[s], charges[s]);
        assert charges[..][s := charges[s]] == charges[..];
        OccupiedAfterUpdate(was, Pow2(bits), s, slots[s]);
      }
    }

    /** What an eviction has done so far: the hand went from `from` to `to` and what it freed is gone. */
    ghost predicate SweptTo(was: seq<Slot>, from: nat, to: nat, freedCharge: nat, freedCount: nat)
      reads this, slots, charges, displacements
    {
      && Sound()
      && |was| == Pow2(bits)
      && Swept(was, slots[..], from, to)
      && TableCharge() + freedCharge == Charged(was, charges[..], Pow2(bits))
      && Entries() + freedCount == Occupied(was, Pow2(bits))
      && (freedCharge > 0 ==> freedCount > 0)
    }

    /** The four slots from `pointer` on. */
    method EvictStep(pointer: nat, charge: nat, count: nat, ghost was: seq<Slot>, ghost from: nat)
      returns (freedCharge: nat, freedCount: nat)
      requires from <= pointer && SweptTo(was, from, pointer, charge, count)
      modifies slots, displacements
      ensures SweptTo(was, from, pointer + 4, freedCharge, freedCount)
    {
      freedCharge, freedCount := charge, count;
      for i := 0 to 4
        invariant SweptTo(was, from, pointer + i, freedCharge, freedCount)
      {
        SweptOneMore(was, slots[..], from, pointer + i);
        var c, n := EvictSlot((pointer + i) % Pow2(bits));
        freedCharge, freedCount := freedCharge + c, freedCount + n;
      }
    }

    /** The last four slots were not visited in vain: without them less was freed than requested. */
    ghost predicate StillShort(was: seq<Slot>, from: nat, to: nat, requested: nat)
      reads this, charges
    {
      && |was| == charges.Length > 0 && from + 4 <= to
      && (from + 4 < to ==>
            Charged(was, charges[..], |was|) < Charged(SweptSlots(was, from, to - 4), charges[..], |was|) + requested)
    }

    /** The hand moves on by four slots. */
    method Advance(charge: nat, count: nat, ghost was: seq<Slot>, ghost from: nat, ghost requested: nat)
      returns (pointer: nat, freedCharge: nat, freedCount: nat)
      requires from <= clockPointer && SweptTo(was, from, clockPointer, charge, count) && charge < requested
      modifies this`clockPointer, slots, displacements
      ensures pointer == old(clockPointer) && clockPointer == pointer + 4
      ensures SweptTo(was, from, clockPointer, freedCharge, freedCount)
      ensures StillShort(was, from, clockPointer, requested)
    {
      SweptIsSwept(was, slots[..], from, clockPointer);
      pointer := clockPointer;
      clockPointer := clockPointer + 4;
      freedCharge, freedCount := EvictStep(pointer, charge, count, was, from);
    }

    /** The hand moves until enough is freed or it has made its rounds. */
    method Sweep(requested: nat) returns (freedCharge: nat, freedCount: nat)
      requires Sound() && requested > 0
      modifies this`clockPointer, slots, displacements
      ensures SweptTo(old(slots[..]), old(clockPointer), clockPointer, freedCharge, freedCount)
      ensures StillShort(old(slots[..]), old(clockPointer), clockPointer, requested)
      ensures freedCharge < requested ==> old(clockPointer) + MAX_COUNTDOWN * Pow2(bits) <= clockPointer
    {
      ghost var was, from := slots[..], clockPointer;
      var maxPointer := clockPointer + MAX_COUNTDOWN * Pow2(bits);
      var pointer;
      pointer, freedCharge, freedCount := Advance(0, 0, was, from, requested);
      while freedCharge < requested && pointer < maxPointer
        decreases maxPointer - pointer
        invariant from <= pointer && clockPointer == pointer + 4
        invariant SweptTo(was, from, clockPointer, freedCharge, freedCount)
        invariant StillShort(was, from, clockPointer, requested)
      {
        pointer, freedCharge, freedCount := Advance(freedCharge, freedCount, was, from, requested);
      }
    }

    /** Evict, alone: each slot is clock-updated as often as the hand points at it, and the hand stops as soon as
        enough is freed. What is freed is exactly what left the table, and an eviction that frees less than asked
        has removed every unreferenced entry that was invisible or had a countdown below three, and left the others
        at countdown zero. */
    method Evict(requested: nat) returns (freedCharge: nat, freedCount: nat)
      requires Sound() && requested > 0
      modifies this`clockPointer, slots, displacements
      ensures SweptTo(old(slots[..]), old(clockPointer), clockPointer, freedCharge, freedCount)
      ensures freedCharge < requested ==> Exhausted(old(slots[..]), slots[..])
      ensures Spares(old(slots[..]), slots[..])
      ensures StillShort(old(slots[..]), old(clockPointer), clockPointer, requested)
    {
      ghost var was, from := slots[..], clockPointer;
      freedCharge, freedCount := Sweep(requested);
      SweepSpares(was, slots[..], from, clockPointer);
      if freedCharge < requested {
        ThreeRoundsExhaust(bits, was, old(displacements[..]), slots[..], from, clockPointer);
      }
    }

    // ----- charging

    /** kStrictLoadFactor: 84 percent of the slots. */
    function OccupancyLimit(): (limit: nat)
      ensures limit <= Pow2(bits) && 100 * limit <= 84 * Pow2(bits) < 100 * (limit + 1)
    {
      Pow2(bits) * 84 / 100
    }

    /** Usage and occupancy tell what is there, and what an insert in progress has announced. */
    ghost predicate Books(pendingCharge: int, pendingCount: int)
      requires Shape()
      reads this, slots, charges
    {
      && usage == fixedUsage + TableCharge() + DetachedCharge(standalone) + pendingCharge
      && occupancy == Entries() + pendingCount
      && standaloneUsage == DetachedCharge(standalone)
    }

    ghost predicate Valid()
      reads this, slots, charges, displacements
    {
      Sound() && Books(0, 0) && Entries() <= OccupancyLimit()
    }

    /** Evict what a strict reservation still needs. If that much goes, the reservation is whole; otherwise it is
        given back, together with what was evicted in vain. */
    method MakeRoom(request: nat, need: nat, reserved: int, forOccupancy: bool, ghost pending: nat) returns (made: bool)
      requires Sound() && Books(reserved, pending)
      requires request == (if forOccupancy && need == 0 then 1 else need) > 0
      modifies this`usage, this`occupancy, this`clockPointer, slots, displacements
      ensures Sound() && Spares(old(slots[..]), slots[..])
      ensures Books(if made then reserved + need else 0, pending)
      ensures Entries() <= old(Entries()) && (made && forOccupancy ==> Entries() < old(Entries()))
      ensures if made then usage <= old(usage) else usage <= old(usage) - reserved
      ensures StillShort(old(slots[..]), old(clockPointer), clockPointer, request)
      ensures !made ==>
        && Exhausted(old(slots[..]), slots[..])
        && (usage > old(usage) - reserved - need || (forOccupancy && Entries() == old(Entries())))
    {
      var evictedCharge, evictedCount := Evict(request);
      occupancy := occupancy - evictedCount;
      if evictedCharge > need {
        assert evictedCount > 0;
        usage := usage - (evictedCharge - need);
      } else if evictedCharge < need || (forOccupancy && evictedCount == 0) {
        usage := usage - (evictedCharge + reserved);
        return false;
      }
      assert evictedCount > 0;
      return true;
    }

    /** On success the charge is part of the usage, which is within the capacity. On failure nothing is
        charged, what was evicted is accounted for, and nothing more could have been evicted. */
    method ChargeUsageMaybeEvictStrict(charge: nat, capacity: nat, forOccupancy: bool, ghost pending: nat)
      returns (status: Status)
      requires Sound() && Books(0, pending)
      modifies this`usage, this`occupancy, this`clockPointer, slots, displacements
      ensures Sound() && Spares(old(slots[..]), slots[..])
      ensures !status.OkOverwritten? && Books(if status.Ok? then charge else 0, pending)
      ensures if status.Ok? then usage <= capacity else usage <= old(usage)
      ensures Entries() <= old(Entries()) && (status.Ok? && forOccupancy ==> Entries() < old(Entries()))
      ensures status.MemoryLimit? && charge <= capacity ==>
        && Exhausted(old(slots[..]), slots[..])
        && (usage + charge > capacity || (forOccupancy && Entries() == old(Entries())))
      ensures old(usage) + charge <= capacity && !forOccupancy ==> status.Ok? && slots[..] == old(slots[..])
      ensures charge <= capacity < old(usage) + charge ==>
        StillShort(old(slots[..]), old(clockPointer), clockPointer, old(usage) + charge - capacity)
    {
      if charge > capacity {
        return MemoryLimit;
      }
      var oldUsage, newUsage := usage, usage;
      if oldUsage != capacity {
        newUsage := if capacity < oldUsage + charge then capacity else oldUsage + charge;
        usage := newUsage;
      }
      var need := oldUsage + charge - newUsage;
      var request := if forOccupancy && need == 0 then 1 else need;
      if request > 0 {
        var made := MakeRoom(request, need, newUsage - oldUsage, forOccupancy, pending);
        if !made {
          return MemoryLimit;
        }
      }
      return Ok;
    }

    /** What is charged for entries that an eviction does not remove. */
    ghost function Unyielding(): nat
      requires Shape()
      reads this, slots, charges
    {
      fixedUsage + LastingCharge(slots[..], charges[..], Pow2(bits)) + DetachedCharge(standalone)
    }

    /** When nothing more can be evicted, what is left is what an eviction does not remove. */
    lemma NothingElseLeft(was: seq<Slot>)
      requires Shape() && |was| == Pow2(bits) && Exhausted(was, slots[..]) && Spares(was, slots[..])
      ensures TableCharge() <= LastingCharge(was, charges[..], Pow2(bits))
    {
      ExhaustedCharge(was, slots[..], charges[..], Pow2(bits));
    }

    /** What has to be evicted for a charge without a strict limit, beside what the charge itself adds: nothing, or a
        little more than nothing if the usage is above the capacity. */
    function Extra(charge: nat, capacity: nat, before: int): nat {
      if before > capacity then Least(capacity / 1024, charge) + 1 else 0
    }

    /** Evict that much and charge, however much was evicted, unless the table needs room and nothing was. */
    method EvictAndCharge(need: nat, charge: nat, forOccupancy: bool, ghost pending: nat) returns (success: bool)
      requires Sound() && Books(0, pending) && need > 0
      modifies this`usage, this`occupancy, this`clockPointer, slots, displacements
      ensures Sound() && Spares(old(slots[..]), slots[..])
      ensures StillShort(old(slots[..]), old(clockPointer), clockPointer, need)
      ensures Books(if success then charge else 0, pending)
      ensures Entries() <= old(Entries()) && (success && forOccupancy ==> Entries() < old(Entries()))
      ensures !success ==> forOccupancy && Exhausted(old(slots[..]), slots[..]) && usage <= old(Unyielding())
      ensures success ==> usage <= old(usage) + charge
      ensures success ==>
        || usage <= old(usage) + charge - need
        || (Exhausted(old(slots[..]), slots[..]) && usage <= old(Unyielding()) + charge)
    {
      var evictedCharge, evictedCount := Evict(need);
      if evictedCharge < need {
        NothingElseLeft(old(slots[..]));
      }
      if forOccupancy && evictedCount == 0 {
        assert evictedCharge == 0;
        return false;
      }
      occupancy := occupancy - evictedCount;
      usage := usage + (charge - evictedCharge);
      return true;
    }

    /** Without a strict limit this only fails to make room in the table. A charge that fits, or that is larger than
        the usage, evicts nothing unless the table needs room. Any other leaves the usage no higher than it was, and
        lower if that was above the capacity, or nothing more could be evicted. */
    method ChargeUsageMaybeEvictNonStrict(charge: nat, capacity: nat, forOccupancy: bool, ghost pending: nat)
      returns (success: bool)
      requires Sound() && Books(0, pending)
      modifies this`usage, this`occupancy, this`clockPointer, slots, displacements
      ensures Sound() && Spares(old(slots[..]), slots[..])
      ensures Books(if success then charge else 0, pending)
      ensures Entries() <= old(Entries()) && (success && forOccupancy ==> Entries() < old(Entries()))
      ensures !success ==> forOccupancy && Exhausted(old(slots[..]), slots[..])
      ensures !forOccupancy && (old(usage) + charge <= capacity || charge > old(usage)) ==> slots[..] == old(slots[..])
      ensures success && old(usage) + charge > capacity && charge <= old(usage) ==>
        usage <= old(usage) - Extra(charge, capacity, old(usage)) || Exhausted(old(slots[..]), slots[..])
      ensures (if success then usage else usage + charge) <= Peak(old(usage), charge, capacity, old(Unyielding()))
      ensures old(usage) + charge > capacity && charge <= old(usage) ==>
        StillShort(old(slots[..]), old(clockPointer), clockPointer, charge + Extra(charge, capacity, old(usage)))
    {
      var need := 0;
      if usage + charge > capacity && charge <= usage {
        need := charge;
        if usage > capacity {
          need := need + (if capacity / 1024 < charge then capacity / 1024 else charge) + 1;
        }
      }
      if forOccupancy && need == 0 {
        need := 1;
      }
      if need > 0 {
        success := EvictAndCharge(need, charge, forOccupancy, pending);
      } else {
        usage := usage + charge;
        success := true;
      }
    }

    method StandaloneInsert(charge: nat) returns (id: nat)
      requires Shape() && Books(charge, 0)
      modifies this`standalone, this`standaloneUsage
      ensures Books(0, 0)
      ensures id == |old(standalone)| && standalone == old(standalone) + [Detached(charge, 1)]
    {
      id := |standalone|;
      DetachedOneMore(standalone, Detached(charge, 1));
      standalone := standalone + [Detached(charge, 1)];
      standaloneUsage := standaloneUsage + charge;
    }

    /** An entry outside the table, charged if there is room for it. Under a strict limit a charged one
        keeps the usage within the capacity; without room it is uncharged or refused. */
    method CreateStandalone(charge: nat, capacity: nat, strict: bool, allowUncharged: bool) returns (id: Option<nat>)
      requires Valid()
      modifies this`usage, this`occupancy, this`clockPointer, this`standalone, this`standaloneUsage,
        slots, displacements
      ensures Valid() && Spares(old(slots[..]), slots[..])
      ensures strict && old(usage) <= capacity ==> usage <= capacity
      ensures id.None? ==> strict && !allowUncharged && standalone == old(standalone)
      ensures id.Some? ==> id.value == |old(standalone)|
      ensures strict && standalone != old(standalone) + [Detached(charge, 1)] ==>
        charge > capacity || (usage + charge > capacity && Exhausted(old(slots[..]), slots[..]))
      ensures old(usage) + charge <= capacity ==> id.Some? && slots[..] == old(slots[..])
      ensures !strict ==> usage <= Peak(old(usage), charge, capacity, old(Unyielding()))
      ensures id.Some? ==>
        || standalone == old(standalone) + [Detached(charge, 1)]
        || (strict && allowUncharged && standalone == old(standalone) + [Detached(0, 1)])
    {
      var charged := charge;
      if strict {
        var status := ChargeUsageMaybeEvictStrict(charge, capacity, false, 0);
        if status.MemoryLimit? {
          if !allowUncharged {
            return None;
          }
          charged := 0;
        }
      } else {
        // This cannot fail: it only does when the table needs room for one more entry.
        var success := ChargeUsageMaybeEvictNonStrict(charge, capacity, false, 0);
      }
      var at := StandaloneInsert(charged);
      return Some(at);
    }

    // ----- inserting

    /** BeginSlotInsert and FinishSlotInsert on one slot, undisturbed. */
    method TryInsert(s: nat, key: HashedKey, charge: nat, countdown: nat, keep: bool)
      returns (inserted: bool, matches: bool)
      requires Shape() && s < Pow2(bits) && countdown > 0
      modifies slots, charges
      ensures inserted == old(slots[s].meta.state.Empty?)
      ensures matches == (old(slots[s].meta.state.Visible?) && old(slots[s].key) == key)
      ensures slots[..] ==
        if inserted then old(slots[..])[s := NewSlot(key, countdown, keep)]
        else if matches then old(slots[..])[s := BoostedSlot(old(slots[s]), countdown)]
        else old(slots[..])
      ensures charges[..] == if inserted then old(charges[..])[s := charge] else old(charges[..])
    {
      inserted, matches := false, false;
      if slots[s].meta.state.Empty? {
        slots[s] := WithMeta(slots[s], slots[s].meta.(state := Construction));
        charges[s] := charge;
        slots[s] := NewSlot(key, countdown, keep);
        inserted := true;
      } else if slots[s].meta.state.Visible? {
        slots[s] := AddAcquire(slots[s], countdown);
        if slots[s].key == key {
          slots[s] := AddRelease(slots[s], countdown);
          matches := true;
        } else {
          slots[s] := AddAcquire(slots[s], 0 - countdown);
        }
      }
    }

    /** No probe before `i` found an empty slot. */
    ghost predicate Passed(key: HashedKey, i: nat)
      requires Shape()
      reads this, slots
    {
      forall j :: 0 <= j < i ==> !slots[Probe(bits, key, j)].meta.state.Empty?
    }

    /** DoInsert: either a new entry in an empty slot, or no change to any displacement count; then a
        visible entry of the key was boosted, or no slot was empty. */
    method DoInsert(key: HashedKey, charge: nat, countdown: nat, keep: bool) returns (at: Option<nat>)
      requires Sound() && countdown > 0
      modifies slots, charges, displacements
      ensures Sound()
      ensures at.Some? ==> Arrived(old(slots[..]), old(charges[..]), at.value, key, charge, countdown, keep)
      ensures at.None? ==> displacements[..] == old(displacements[..]) && charges[..] == old(charges[..])
      ensures at.None? ==>
        || Boosted(old(slots[..]), slots[..], key, countdown)
        || (slots[..] == old(slots[..]) && forall s :: 0 <= s < Pow2(bits) ==> Shareable(slots[s].meta.state))
    {
      ghost var was, before := slots[..], displacements[..];
      var current := FirstProbe(key);
      var first := current;
      var last := false;
      ghost var i := 0;
      while !last
        invariant 0 <= i <= Pow2(bits) && (!last ==> i < Pow2(bits) && current == Probe(bits, key, i))
        invariant first == Probe(bits, key, 0)
        invariant slots[..] == was && charges[..] == old(charges[..]) && Passed(key, i)
        invariant last ==> i == Pow2(bits) && displacements[..] == before
        invariant !last ==> Shifted(bits, before, displacements[..], key, i, 1)
        decreases Pow2(bits) - i, !last
      {
        var inserted, matches := TryInsert(current, key, charge, countdown, keep);
        if inserted {
          RankOfProbe(bits, key, i);
          EntryArrives(bits, was, before, displacements[..], current, slots[current]);
          return Some(current);
        }
        if matches {
          UndoPasses(key, current, i, before);
          EntryStays(bits, was, before, current, slots[current]);
          return None;
        }
        var h := current;
        current := NextProbe(key, current, i);
        BackAtFirst(bits, key, i);
        last := current == first;
        if last {
          UndoPasses(key, h, i, before);
        } else {
          PassOver(key, h, i, before);
        }
        i := i + 1;
      }
      NoRoomAnywhere(key);
      return None;
    }

    /** The search goes on past slot `h`. */
    method PassOver(key: HashedKey, h: nat, ghost i: nat, ghost before: seq<int>)
      requires Shape() && i < Pow2(bits) && h == Probe(bits, key, i)
      requires Shifted(bits, before, displacements[..], key, i, 1)
      modifies displacements
      ensures Shifted(bits, before, displacements[..], key, i + 1, 1)
    {
      ghost var mid := displacements[..];
      displacements[h] := displacements[h] + 1;
      assert displacements[..] == mid[h := mid[h] + 1];
      ShiftOneMore(bits, before, mid, key, i, 1);
    }

    /** The search ends at slot `h` without an insert: every displacement count is as it was found. */
    method UndoPasses(key: HashedKey, h: nat, ghost i: nat, ghost before: seq<int>)
      requires Shape() && i < Pow2(bits) && h == Probe(bits, key, i)
      requires Shifted(bits, before, displacements[..], key, i, 1)
      modifies displacements
      ensures displacements[..] == before
    {
      ghost var mid := displacements[..];
      RankOfProbe(bits, key, i);
      Rollback(key, h);
      ShiftBack(bits, before, mid, displacements[..], key, i);
    }

    lemma NoRoomAnywhere(key: HashedKey)
      requires Sound() && Passed(key, Pow2(bits))
      ensures forall s :: 0 <= s < Pow2(bits) ==> Shareable(slots[s].meta.state)
    {
      forall s | 0 <= s < Pow2(bits)
        ensures Shareable(slots[s].meta.state)
      {
        assert Probe(bits, key, Rank(bits, key, s)) == s && Settled(slots[..][s]);
      }
    }

    ghost predicate Arrived(
      was: seq<Slot>, before: seq<nat>, s: nat, key: HashedKey, charge: nat, countdown: nat, keep: bool)
      requires Shape()
      reads this, slots, charges
    {
      && s < |was| == |before| == Pow2(bits)
      && was[s].meta.state.Empty?
      && slots[..] == was[s := NewSlot(key, countdown, keep)]
      && charges[..] == before[s := charge]
    }

    /** The key has a new entry with this charge and countdown, or one that it had before has got at least that
        countdown and keeps its charge. */
    ghost predicate Landed(
      was: seq<Slot>, before: seq<nat>, key: HashedKey, charge: nat, countdown: nat, keep: bool)
      requires Shape()
      reads this, slots, charges
    {
      && |was| == |before| == Pow2(bits)
      && (|| (exists s :: 0 <= s < Pow2(bits) && slots[s] == NewSlot(key, countdown, keep) && charges[s] == charge)
          || (exists s :: 0 <= s < Pow2(bits) && Matches(was[s], key) && Matches(slots[s], key) &&
                slots[s].meta.acquire == was[s].meta.acquire + countdown && charges[s] == before[s]))
    }

    lemma BoostLands(was: seq<Slot>, before: seq<nat>, key: HashedKey, charge: nat, countdown: nat, keep: bool)
      requires Shape() && Boosted(was, slots[..], key, countdown) && |was| == Pow2(bits) && charges[..] == before
      ensures Landed(was, before, key, charge, countdown, keep) && Joins(was, slots[..], key)
    {
      var s :| 0 <= s < |was| && Matches(was[s], key) && slots[..] == was[s := BoostedSlot(was[s], countdown)];
      BoostJoins(was, slots[..], s, key, countdown);
      assert Matches(was[s], key) && Matches(slots[s], key) && charges[s] == before[s];
    }

    /** The rest of Insert once the entry is charged and counted: into the table, or beside it if the
        key is there already and a handle is wanted, or nowhere. */
    method Place(key: HashedKey, charge: nat, countdown: nat, wantHandle: bool, ghost was: seq<Slot>)
      returns (status: Status, handle: Option<Handle>)
      requires Sound() && Books(charge, 1) && Entries() < OccupancyLimit() && countdown > 0
      requires Spares(was, slots[..])
      modifies this`usage, this`occupancy, this`standalone, this`standaloneUsage, slots, charges, displacements
      ensures Valid() && usage <= old(usage)
      ensures HandlesKept(was, old(charges[..]), slots[..], charges[..]) && Joins(old(slots[..]), slots[..], key)
      ensures Landed(old(slots[..]), old(charges[..]), key, charge, countdown, wantHandle)
      ensures !status.MemoryLimit? && Given(status, handle, wantHandle, key, charge, countdown, old(standalone))
      ensures Shown(slots[..], key)
    {
      ghost var mid, before := slots[..], charges[..];
      var at := DoInsert(key, charge, countdown, wantHandle);
      if at.Some? {
        ArrivalLands(was, mid, before, at.value, key, charge, countdown, wantHandle);
        return Ok, if wantHandle then Some(InTable(at.value)) else None;
      }
      BoostedOrFull(mid, key, countdown);
      BoostMovesNothing(mid, slots[..], before, key, countdown);
      BoostLands(mid, before, key, charge, countdown, wantHandle);
      BoostKeepsHandles(was, mid, slots[..], before, key, countdown);
      occupancy := occupancy - 1;
      if !wantHandle {
        usage := usage - charge;
        return Ok, None;
      }
      var id := StandaloneInsert(charge);
      return OkOverwritten, Some(Alone(id));
    }

    /** What a new entry brings to the table. */
    lemma ArrivalLands(
      was: seq<Slot>, mid: seq<Slot>, before: seq<nat>, s: nat, key: HashedKey, charge: nat, countdown: nat, keep: bool)
      requires Shape() && Arrived(mid, before, s, key, charge, countdown, keep) && Spares(was, mid)
      ensures TableCharge() == Charged(mid, before, Pow2(bits)) + charge && Entries() == Occupied(mid, Pow2(bits)) + 1
      ensures HandlesKept(was, before, slots[..], charges[..]) && Joins(mid, slots[..], key) && Shown(slots[..], key)
      ensures Landed(mid, before, key, charge, countdown, keep)
    {
      ChargedAfterUpdate(mid, before, Pow2(bits), s, slots[s], charge);
      OccupiedAfterUpdate(mid, Pow2(bits), s, slots[s]);
      ArrivalKeepsHandles(was, mid, before, s, slots[s], charge);
      assert Matches(slots[..][s], key);
      assert slots[s] == NewSlot(key, countdown, keep) && charges[s] == charge;
    }

    lemma BoostedOrFull(was: seq<Slot>, key: HashedKey, countdown: nat)
      requires Shape() && |was| == Pow2(bits) && Occupied(was, Pow2(bits)) < Pow2(bits)
      requires Boosted(was, slots[..], key, countdown) ||
        (slots[..] == was && forall s :: 0 <= s < Pow2(bits) ==> Shareable(slots[s].meta.state))
      ensures Boosted(was, slots[..], key, countdown)
    {
      if forall s :: 0 <= s < Pow2(bits) ==> Shareable(slots[..][s].meta.state) {
        FullTableIsCounted(slots[..], Pow2(bits));
      }
    }

    /** What Insert hands out: a fresh reference to a new entry, in the table or outside it. */
    ghost predicate Given(
      status: Status, handle: Option<Handle>, wantHandle: bool, key: HashedKey, charge: nat, countdown: nat,
      others: seq<Detached>)
      requires Shape()
      reads this, slots, charges
    {
      match handle
      case None => !status.OkOverwritten? && (wantHandle ==> status.MemoryLimit?) && standalone == others
      case Some(InTable(s)) =>
        && status.Ok? && wantHandle && standalone == others
        && s < Pow2(bits) && slots[s] == NewSlot(key, countdown, true) && charges[s] == charge
      case Some(Alone(id)) =>
        && status.OkOverwritten? && wantHandle && id == |others| && standalone == others + [Detached(charge, 1)]
    }

    /** Some entries may have been evicted, none of them referenced; then the entry was placed. */
    ghost predicate EvictedAndLanded(
      was: seq<Slot>, before: seq<nat>, key: HashedKey, charge: nat, countdown: nat, keep: bool)
      requires Shape()
      reads this, slots, charges
    {
      exists mid: seq<Slot> :: Spares(was, mid) && Joins(mid, slots[..], key) &&
        Landed(mid, before, key, charge, countdown, keep)
    }

    /** Place the entry in what evictions have left of `was`. */
    method PlaceAfterEviction(key: HashedKey, charge: nat, countdown: nat, wantHandle: bool, ghost was: seq<Slot>)
      returns (status: Status, handle: Option<Handle>)
      requires Sound() && Books(charge, 1) && Entries() < OccupancyLimit() && countdown > 0 && Spares(was, slots[..])
      modifies this`usage, this`occupancy, this`standalone, this`standaloneUsage, slots, charges, displacements
      ensures Valid() && usage <= old(usage) && !status.MemoryLimit? && Shown(slots[..], key)
      ensures HandlesKept(was, old(charges[..]), slots[..], charges[..])
      ensures Given(status, handle, wantHandle, key, charge, countdown, old(standalone))
      ensures EvictedAndLanded(was, old(charges[..]), key, charge, countdown, wantHandle)
      ensures old(slots[..]) == was ==>
        Joins(was, slots[..], key) && Landed(was, old(charges[..]), key, charge, countdown, wantHandle)
      ensures Exhausted(was, old(slots[..])) ==> Drained(was, slots[..], key)
    {
      status, handle := Place(key, charge, countdown, wantHandle, was);
      if Exhausted(was, old(slots[..])) {
        JoinsDrained(was, old(slots[..]), slots[..], key);
      }
    }

    /** Insert under a strict limit, once the entry is counted. */
    method InsertStrict(
      key: HashedKey, charge: nat, countdown: nat, wantHandle: bool, capacity: nat, forOccupancy: bool)
      returns (status: Status, handle: Option<Handle>)
      requires Sound() && Books(0, 1) && Entries() <= OccupancyLimit() && countdown > 0
      requires forOccupancy == (Entries() == OccupancyLimit())
      modifies this, slots, charges, displacements
      ensures Valid() && (old(usage) <= capacity ==> usage <= capacity)
      ensures HandlesKept(old(slots[..]), old(charges[..]), slots[..], charges[..])
      ensures Given(status, handle, wantHandle, key, charge, countdown, old(standalone))
      ensures status.MemoryLimit? ==> charge > capacity || Exhausted(old(slots[..]), slots[..])
      ensures status.MemoryLimit? ==> charge > capacity || usage + charge > capacity || forOccupancy
      ensures !status.MemoryLimit? ==>
        && Shown(slots[..], key)
        && EvictedAndLanded(old(slots[..]), old(charges[..]), key, charge, countdown, wantHandle)
      ensures old(usage) + charge <= capacity && !forOccupancy ==>
        && Joins(old(slots[..]), slots[..], key)
        && Landed(old(slots[..]), old(charges[..]), key, charge, countdown, wantHandle)
    {
      status := ChargeUsageMaybeEvictStrict(charge, capacity, forOccupancy, 1);
      if status.MemoryLimit? {
        occupancy := occupancy - 1;
        return status, None;
      }
      status, handle := PlaceAfterEviction(key, charge, countdown, wantHandle, old(slots[..]));
    }

    /** The same without a strict limit. If the table has no room and none can be made, the entry goes beside it or,
        without a handle to give out, nowhere. */
    method InsertNonStrict(
      key: HashedKey, charge: nat, countdown: nat, wantHandle: bool, capacity: nat, forOccupancy: bool)
      returns (status: Status, handle: Option<Handle>)
      requires Sound() && Books(0, 1) && Entries() <= OccupancyLimit() && countdown > 0
      requires forOccupancy == (Entries() == OccupancyLimit())
      modifies this, slots, charges, displacements
      ensures Valid() && !status.MemoryLimit?
      ensures HandlesKept(old(slots[..]), old(charges[..]), slots[..], charges[..])
      ensures Given(status, handle, wantHandle, key, charge, countdown, old(standalone))
      ensures (forOccupancy && Exhausted(old(slots[..]), slots[..])) ||
        (Shown(slots[..], key) &&
         EvictedAndLanded(old(slots[..]), old(charges[..]), key, charge, countdown, wantHandle))
      ensures old(usage) + charge <= capacity && !forOccupancy ==>
        && Joins(old(slots[..]), slots[..], key)
        && Landed(old(slots[..]), old(charges[..]), key, charge, countdown, wantHandle)
      ensures old(usage) + charge > capacity && charge <= old(usage) ==>
        usage <= old(usage) - Extra(charge, capacity, old(usage)) || Drained(old(slots[..]), slots[..], key)
      ensures usage <= Peak(old(usage), charge, capacity, old(Unyielding()))
    {
      var success := ChargeUsageMaybeEvictNonStrict(charge, capacity, forOccupancy, 1);
      if !success {
        occupancy := occupancy - 1;
        if !wantHandle {
          return Ok, None;
        }
        usage := usage + charge;
        var id := StandaloneInsert(charge);
        return OkOverwritten, Some(Alone(id));
      }
      status, handle := PlaceAfterEviction(key, charge, countdown, wantHandle, old(slots[..]));
    }

    method Insert(key: HashedKey, charge: nat, countdown: nat, wantHandle: bool, capacity: nat, strict: bool)
      returns (status: Status, handle: Option<Handle>)
      requires Valid() && countdown > 0
      modifies this, slots, charges, displacements
      ensures Valid()
      ensures strict && old(usage) <= capacity ==> usage <= capacity
      ensures HandlesKept(old(slots[..]), old(charges[..]), slots[..], charges[..])
      ensures Given(status, handle, wantHandle, key, charge, countdown, old(standalone))
      ensures status.MemoryLimit? ==> strict && (charge > capacity || Exhausted(old(slots[..]), slots[..]))
      ensures status.MemoryLimit? ==>
        charge > capacity || usage + charge > capacity || old(occupancy) == OccupancyLimit()
      ensures !status.MemoryLimit? ==>
        || (!strict && old(occupancy) == OccupancyLimit() && Exhausted(old(slots[..]), slots[..]))
        || (Shown(slots[..], key) &&
            EvictedAndLanded(old(slots[..]), old(charges[..]), key, charge, countdown, wantHandle))
      ensures old(usage) + charge <= capacity && old(occupancy) < OccupancyLimit() ==>
        && Joins(old(slots[..]), slots[..], key)
        && Landed(old(slots[..]), old(charges[..]), key, charge, countdown, wantHandle)
      ensures !strict && old(usage) + charge > capacity && charge <= old(usage) ==>
        usage <= old(usage) - Extra(charge, capacity, old(usage)) || Drained(old(slots[..]), slots[..], key)
      ensures !strict ==> usage <= Peak(old(usage), charge, capacity, old(Unyielding()))
    {
      occupancy := occupancy + 1;
      var forOccupancy := occupancy > OccupancyLimit();
      if strict {
        status, handle := InsertStrict(key, charge, countdown, wantHandle, capacity, forOccupancy);
      } else {
        status, handle := InsertNonStrict(key, charge, countdown, wantHandle, capacity, forOccupancy);
      }
    }

    // ----- looking up and letting go

    /** Change the counters or the visibility of one slot. */
    method Touch(s: nat, slot: Slot)
      requires Sound() && s < Pow2(bits) && Settled(slot) && slots[s].key == slot.key
      requires Shareable(slots[s].meta.state) == Shareable(slot.meta.state)
      modifies slots
      ensures Sound() && slots[..] == old(slots[..])[s := slot]
      ensures TableCharge() == old(TableCharge()) && Entries() == old(Entries())
    {
      ghost var was := slots[..];
      slots[s] := slot;
      assert slots[..] == was[s := slot];
      EntryStays(bits, was, displacements[..], s, slot);
      ChargedAfterUpdate(was, charges[..], Pow2(bits), s, slot, charges[s]);
      assert charges[..][s := charges[s]] == charges[..];
      OccupiedAfterUpdate(was, Pow2(bits), s, slot);
    }

    /** Take an entry over, free it, and give back its charge and its place. */
    method Remove(s: nat)
      requires Valid() && s < Pow2(bits) && Shareable(slots[s].meta.state)
      modifies this`usage, this`occupancy, slots, displacements
      ensures Valid() && slots[..] == old(slots[..])[s := WithMeta(old(slots[s]), CLEARED)]
      ensures usage == old(usage) - charges[s]
    {
      ghost var was, before := slots[..], displacements[..];
      var key := slots[s].key;
      slots[s] := WithMeta(slots[s], OWNED);
      assert slots[..] == was[s := WithMeta(was[s], OWNED)];
      Rollback(key, s);
      Clear(s, was, before);
      assert occupancy > 0;
      occupancy := occupancy - 1;
      assert usage >= charges[s];
      usage := usage - charges[s];
    }

    /** Lookup takes a reference to a visible entry of the key if and only if there is one. */
    method Lookup(key: HashedKey) returns (found: Option<nat>)
      requires Valid()
      modifies slots
      ensures Valid()
      ensures found.Some? <==> Shown(old(slots[..]), key)
      ensures match found
        case None => StrayOnly(old(slots[..]), slots[..])
        case Some(s) =>
          && s < Pow2(bits) && Matches(old(slots[..])[s], key)
          && slots[s] == AddAcquire(old(slots[..])[s], 1)
          && StrayOnly(old(slots[..]), slots[..][s := old(slots[..])[s]])
    {
      ghost var was := slots[..];
      var first := FirstProbe(key);
      var current := first;
      ghost var i := 0;
      while true
        invariant i < Pow2(bits) && current == Probe(bits, key, i) && Valid()
        invariant StrayOnly(was, slots[..])
        invariant forall j :: 0 <= j < i ==> !Matches(was[Probe(bits, key, j)], key)
        decreases Pow2(bits) - i
      {
        var found := LookupAt(key, current, was);
        if found {
          return Some(current);
        }
        var h := current;
        current := NextProbe(key, current, i);
        BackAtFirst(bits, key, i);
        if displacements[h] == 0 || current == first {
          MissedNothing(key, i, was);
          return None;
        }
        i := i + 1;
      }
    }

    /** Lookup on one slot: the reference is kept on a match and undone on any other entry. */
    method LookupAt(key: HashedKey, s: nat, ghost was: seq<Slot>) returns (found: bool)
      requires Valid() && s < Pow2(bits) && StrayOnly(was, slots[..])
      modifies slots
      ensures Valid() && found == Matches(was[s], key)
      ensures if found then slots[s] == AddAcquire(was[s], 1) && StrayOnly(was, slots[..][s := was[s]])
        else StrayOnly(was, slots[..])
    {
      var slot := slots[s];
      Touch(s, AddAcquire(slot, 1));
      found := Matches(slot, key);
      if !found && Shareable(slot.meta.state) {
        Touch(s, AddAcquire(slots[s], -1));
      }
    }

    lemma MissedNothing(key: HashedKey, i: nat, was: seq<Slot>)
      requires Sound() && i < Pow2(bits) && StrayOnly(was, slots[..])
      requires forall j :: 0 <= j <= i ==> !Matches(was[Probe(bits, key, j)], key)
      requires displacements[Probe(bits, key, i)] == 0 || i + 1 == Pow2(bits)
      ensures !Shown(was, key)
    {
      forall s | 0 <= s < |was|
        ensures !Matches(was[s], key)
      {
        if Matches(was[s], key) {
          NothingBeyond(bits, slots[..], displacements[..], key, i, s);
        }
      }
    }

    ghost predicate Holds(handle: Handle)
      requires Shape()
      reads this, slots
    {
      match handle
      case InTable(s) => s < Pow2(bits) && Held(slots[s])
      case Alone(id) => id < |standalone| && standalone[id].refs > 0
    }

    method Ref(handle: Handle)
      requires Valid() && Holds(handle)
      modifies this`standalone, slots
      ensures Valid() && usage == old(usage)
      ensures match handle
        case InTable(s) =>
          slots[..] == old(slots[..])[s := AddAcquire(old(slots[s]), 1)] && standalone == old(standalone)
        case Alone(id) =>
          && slots[..] == old(slots[..])
          && standalone == old(standalone)[id := Detached(old(standalone)[id].charge, old(standalone)[id].refs + 1)]
    {
      match handle
      case InTable(s) =>
        Touch(s, AddAcquire(slots[s], 1));
      case Alone(id) =>
        var d := Detached(standalone[id].charge, standalone[id].refs + 1);
        DetachedAfterUpdate(standalone, id, d);
        standalone := standalone[id := d];
    }

    /** Release of an entry of the table: it is freed exactly when this was the last reference and it is
        invisible or the caller asked for it. */
    method ReleaseEntry(s: nat, useful: bool, eraseIfLast: bool) returns (erased: bool)
      requires Valid() && s < Pow2(bits) && Held(slots[s])
      modifies this`usage, this`occupancy, slots, displacements
      ensures Valid()
      ensures erased == (RefCount(old(slots[s].meta)) == 1 && (eraseIfLast || old(slots[s].meta.state.Invisible?)))
      ensures slots[..] == old(slots[..])[s := ReleasedSlot(old(slots[s]), useful, erased)]
      ensures usage == old(usage) - if erased then charges[s] else 0
    {
      ghost var was := slots[..];
      Touch(s, if useful then AddRelease(slots[s], 1) else AddAcquire(slots[s], -1));
      erased := false;
      if eraseIfLast || slots[s].meta.state.Invisible? {
        if RefCount(slots[s].meta) != 0 {
          return;
        }
        Remove(s);
        assert slots[..] == was[s := WithMeta(was[s], CLEARED)];
        erased := true;
      }
    }

    /** Release of a standalone entry, which is always invisible. */
    method ReleaseStandalone(id: nat) returns (erased: bool)
      requires Valid() && id < |standalone| && standalone[id].refs > 0
      modifies this`usage, this`standaloneUsage, this`standalone
      ensures Valid()
      ensures erased == (old(standalone)[id].refs == 1)
      ensures standalone == old(standalone)[id := Detached(old(standalone)[id].charge, old(standalone)[id].refs - 1)]
      ensures usage == old(usage) - if erased then old(standalone)[id].charge else 0
    {
      var d := Detached(standalone[id].charge, standalone[id].refs - 1);
      DetachedAfterUpdate(standalone, id, d);
      standalone := standalone[id := d];
      erased := d.refs == 0;
      if erased {
        standaloneUsage := standaloneUsage - d.charge;
        usage := usage - d.charge;
      }
    }

    method Release(handle: Handle, useful: bool, eraseIfLast: bool) returns (erased: bool)
      requires Valid() && Holds(handle)
      modifies this`usage, this`occupancy, this`standaloneUsage, this`standalone, slots, displacements
      ensures Valid() && usage <= old(usage)
      ensures match handle
        case InTable(s) =>
          && erased == (RefCount(old(slots[..])[s].meta) == 1 &&
                        (eraseIfLast || old(slots[..])[s].meta.state.Invisible?))
          && standalone == old(standalone)
          && slots[..] == old(slots[..])[s := ReleasedSlot(old(slots[..])[s], useful, erased)]
        case Alone(id) =>
          && erased == (old(standalone)[id].refs == 1)
          && slots[..] == old(slots[..])
          && standalone == old(standalone)[id := Detached(old(standalone)[id].charge, old(standalone)[id].refs - 1)]
    {
      match handle
      case InTable(s) => erased := ReleaseEntry(s, useful, eraseIfLast);
      case Alone(id) => erased := ReleaseStandalone(id);
    }

    /** Erase: afterwards no entry of the key is visible; those nobody refers to are gone, and nothing
        else has changed. */
    method Erase(key: HashedKey)
      requires Valid()
      modifies this`usage, this`occupancy, slots, displacements
      ensures Valid() && usage <= old(usage)
      ensures ErasedTo(bits, old(slots[..]), slots[..], key, Pow2(bits)) && !Shown(slots[..], key)
    {
      ghost var was := slots[..];
      var first := FirstProbe(key);
      var current := first;
      ghost var i := 0;
      while true
        invariant i < Pow2(bits) && current == Probe(bits, key, i) && Valid() && usage <= old(usage)
        invariant ErasedTo(bits, was, slots[..], key, i)
        decreases Pow2(bits) - i
      {
        EraseAt(key, current, i, was);
        var h := current;
        current := NextProbe(key, current, i);
        BackAtFirst(bits, key, i);
        if displacements[h] == 0 || current == first {
          ErasedAll(bits, was, slots[..], displacements[..], key, i);
          return;
        }
        i := i + 1;
      }
    }

    /** Erase on one slot. */
    method EraseAt(key: HashedKey, s: nat, ghost i: nat, ghost was: seq<Slot>)
      requires Valid() && i < Pow2(bits) && s == Probe(bits, key, i) && ErasedTo(bits, was, slots[..], key, i)
      modifies this`usage, this`occupancy, slots, displacements
      ensures Valid() && usage <= old(usage) && ErasedTo(bits, was, slots[..], key, i + 1)
    {
      ghost var before := slots[..];
      RankOfProbe(bits, key, i);
      var slot := slots[s];
      Touch(s, AddAcquire(slot, 1));
      if Matches(slot, key) {
        Touch(s, Hidden(slots[s]));
        if RefCount(slots[s].meta) > 1 {
          Touch(s, AddAcquire(slots[s], -1));
        } else {
          Remove(s);
        }
      } else if Shareable(slot.meta.state) {
        Touch(s, AddAcquire(slots[s], -1));
      }
      assert slots[..] == before[s := slots[s]];
      ErasedOneMore(bits, was, before, key, i, slots[s]);
    }

    /** EraseUnRefEntries: every unreferenced entry goes. If nobody holds a reference, nothing is left
        that is charged, counted or displaced. */
    method EraseUnRefEntries()
      requires Valid()
      modifies this`usage, this`occupancy, slots, displacements
      ensures Valid() && usage <= old(usage)
      ensures forall s :: 0 <= s < Pow2(bits) ==>
        if Unreferenced(old(slots[..])[s].meta) then slots[s].meta.state.Empty? else slots[s] == old(slots[..])[s]
      ensures (forall s :: 0 <= s < Pow2(bits) ==> !Held(old(slots[..])[s])) ==>
        && occupancy == 0 && usage == fixedUsage + standaloneUsage
        && forall s :: 0 <= s < Pow2(bits) ==> displacements[s] == 0
    {
      ghost var was := slots[..];
      for i := 0 to Pow2(bits)
        invariant Valid() && usage <= old(usage)
        invariant forall s :: 0 <= s < i ==>
          if Unreferenced(was[s].meta) then slots[s].meta.state.Empty? else slots[s] == was[s]
        invariant forall s :: i <= s < Pow2(bits) ==> slots[s] == was[s]
      {
        if Shareable(slots[i].meta.state) && RefCount(slots[i].meta) == 0 {
          Remove(i);
        }
      }
      if forall s :: 0 <= s < Pow2(bits) ==> !Held(was[s]) {
        NothingLeft(was);
      }
    }

    lemma NothingLeft(was: seq<Slot>)
      requires Valid() && |was| == Pow2(bits)
      requires forall s :: 0 <= s < Pow2(bits) ==> Settled(was[s]) && !Held(was[s])
      requires forall s :: 0 <= s < Pow2(bits) ==>
        if Unreferenced(was[s].meta) then slots[s].meta.state.Empty? else slots[s] == was[s]
      ensures occupancy == 0 && usage == fixedUsage + standaloneUsage
      ensures forall s :: 0 <= s < Pow2(bits) ==> displacements[s] == 0
    {
      forall s | 0 <= s < Pow2(bits)
        ensures displacements[s] == 0
      {
        NothingCounted(bits, slots[..], charges[..], Pow2(bits), s);
        assert displacements[..][s] == Passing(bits, slots[..], Pow2(bits), s);
      }
      NothingCounted(bits, slots[..], charges[..], Pow2(bits), 0);
    }

    ghost function Now(): Moment
      requires Shape()
      reads this, slots, charges
    {
      Moment(slots[..], charges[..], standalone, fixedUsage, usage)
    }

    /** What the usage is made of, in every valid state. */
    lemma NowIsRight()
      requires Valid()
      ensures Now().Right() && Now().Unyielding() == Unyielding()
    {
    }

    method Apply(op: Op, capacity: nat, strict: bool)
      requires Valid()
      modifies this, slots, charges, displacements
      ensures Valid() && StepIsBounded(old(Now()), op, Now(), capacity, strict)
    {
      NowIsRight();
      match op
      case DoInsert(key, charge, priority, wantHandle) =>
        ApplyInsert(key, charge, priority, wantHandle, capacity, strict);
      case DoStandalone(charge, allowUncharged) => ApplyStandalone(charge, allowUncharged, capacity, strict);
      case _ => Use(op);
      NowIsRight();
    }

    method ApplyStandalone(charge: nat, allowUncharged: bool, capacity: nat, strict: bool)
      requires Valid()
      modifies this, slots, charges, displacements
      ensures Valid() && (strict && old(usage) <= capacity ==> usage <= capacity)
      ensures !strict ==> usage <= Peak(old(usage), charge, capacity, old(Unyielding()))
    {
      var _ := CreateStandalone(charge, capacity, strict, allowUncharged);
    }

    method ApplyInsert(
      key: HashedKey, charge: nat, priority: Priority, wantHandle: bool, capacity: nat, strict: bool)
      requires Valid()
      modifies this, slots, charges, displacements
      ensures Valid() && (strict && old(usage) <= capacity ==> usage <= capacity)
      ensures !strict ==> usage <= Peak(old(usage), charge, capacity, old(Unyielding()))
      ensures HandlesKept(old(slots[..]), old(charges[..]), slots[..], charges[..])
    {
      var _, _ := Insert(key, charge, InitialCountdown(priority), wantHandle, capacity, strict);
    }

    /** An operation that charges nothing. */
    method Use(op: Op)
      requires Valid() && !op.DoInsert? && !op.DoStandalone?
      modifies this, slots, charges, displacements
      ensures Valid() && usage <= old(usage) && UseIsDone(old(Now()), op, Now())
    {
      match op
      case DoLookup(key) => Find(key);
      case DoErase(key) => Erase(key);
      case DoRef(handle) =>
        var held := CheckHeld(handle);
        if held {
          Ref(handle);
        }
      case DoRelease(handle, useful, eraseIfLast) =>
        var held := CheckHeld(handle);
        if held {
          var _ := Release(handle, useful, eraseIfLast);
        }
      case DoPurge => EraseUnRefEntries();
    }

    method Find(key: HashedKey)
      requires Valid()
      modifies slots
      ensures Valid() && UseIsDone(old(Now()), Op.DoLookup(key), Now())
    {
      var found := Lookup(key);
      if found.Some? {
        assert slots[..][found.value] == slots[found.value];
      }
    }

    /** Any run of operations: the books are right and every displacement count exact in every state, under a strict
        limit the usage never exceeds a fixed capacity, and without one it is bounded from state to state. A
        run refers and releases only what it holds. */
    method Run(ops: seq<Op>, capacity: nat, strict: bool) returns (ghost trace: seq<Moment>)
      requires Valid()
      modifies this, slots, charges, displacements
      ensures Valid() && (strict && old(usage) <= capacity ==> usage <= capacity)
      ensures |trace| == |ops| + 1 && trace[0] == old(Now()) && trace[|ops|] == Now()
      ensures IsTrace(trace, ops, capacity, strict)
    {
      trace := [Now()];
      for i := 0 to |ops|
        invariant Valid() && (strict && old(usage) <= capacity ==> usage <= capacity)
        invariant |trace| == i + 1 && trace[0] == old(Now()) && trace[i] == Now()
        invariant forall x :: 0 <= x < i ==> StepIsBounded(trace[x], ops[x], trace[x + 1], capacity, strict)
      {
        Apply(ops[i], capacity, strict);
        trace := trace + [Now()];
      }
    }

    method CheckHeld(handle: Handle) returns (held: bool)
      requires Valid()
      ensures held == Holds(handle)
    {
      match handle
      case InTable(s) => held := s < slots.Length && Held(slots[s]);
      case Alone(id) => held := id < |standalone| && standalone[id].refs > 0;
    }
  }

  /** A useful release counts for the clock, any other one undoes the acquire. */
  function ReleasedSlot(slot: Slot, useful: bool, erased: bool): (r: Slot)
    ensures r.key == slot.key && r.meta.state == if erased then Empty else slot.meta.state
    ensures !erased ==> RefCount(r.meta) == RefCount(slot.meta) - 1
    ensures !erased ==> r.meta.acquire == slot.meta.acquire - if useful then 0 else 1
  {
    if erased then WithMeta(slot, CLEARED) else if useful then AddRelease(slot, 1) else AddAcquire(slot, -1)
  }

  function NewSlot(key: HashedKey, countdown: nat, keep: bool): (r: Slot)
    ensures r.key == key && r.meta.state.Visible? && r.meta.acquire == countdown
    ensures RefCount(r.meta) == if keep then 1 else 0
  {
    Slot(Meta(countdown, countdown - (if keep then 1 else 0), Visible), key)
  }

  /** A new entry that nobody refers to or uses again outlives three clock updates with high priority, two with low
      and one with bottom priority. */
  lemma NewEntryLifetime(key: HashedKey, priority: Priority, k: nat)
    ensures TickedTimes(NewSlot(key, InitialCountdown(priority), false).meta, k).state.Visible? <==>
      k <= match priority case High => 3 case Low => 2 case Bottom => 1
  {
    TicksLifetime(NewSlot(key, InitialCountdown(priority), false).meta, k);
  }
}
