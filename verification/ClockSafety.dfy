/** Every step of every thread keeps the invariant of the slot protocol, so it holds in every state
    of every interleaving; and what follows from it for cache users. */
module ClockSafety {
  import opened Arithmetic
  import opened ProbeSequence
  import opened ClockProtocol

  /** The step is right about its slot, and touches nothing else. */
  ghost predicate StepSafe(st: State, t: nat, e: Effect)
    requires Shaped(st) && AllInRange(st.bits, st.threads) && t < |st.threads|
  {
    && StepOk(st, t, e)
    && forall s :: 0 <= s < Pow2(st.bits) ==> StepIsLocal(st, t, e, s)
  }

  /** What the invariant says about a slot that thread `t` is at. */
  lemma {:induction false} AtSlot(st: State, t: nat, s: nat)
    requires Inv(st) && t < |st.threads| && s < Pow2(st.bits)
    ensures SlotInv(st, s)
    ensures Holders(st, s) >= st.handles[s] + RefsHeld(st.bits, st.threads[t], s)
    ensures Owns(st.bits, st.threads[t], s) ==> st.slots[s].meta.state.Construction?
  {
    TotalCoversPair(st.bits, References, st.threads, t, t, s);
    TotalCoversPair(st.bits, Ownership, st.threads, t, t, s);
  }

  /** A step that changes no slot, no reference and no displacement of its thread. */
  lemma {:induction false} QuietStepSafe(st: State, t: nat, th: Thread)
    requires Inv(st) && t < |st.threads| && InRange(st.bits, th)
    requires forall s :: 0 <= s < Pow2(st.bits) ==>
      && RefsHeld(st.bits, th, s) == RefsHeld(st.bits, st.threads[t], s)
      && Owns(st.bits, th, s) == Owns(st.bits, st.threads[t], s)
      && Displaces(st.bits, th, s) == Displaces(st.bits, st.threads[t], s)
    requires Knows(st.bits, st.slots, th)
    ensures StepSafe(st, t, Local(st, th))
  {
    AtSlot(st, t, 0);
    assert st.slots[0 := st.slots[0]] == st.slots;
  }

  /** Insert when it claims an empty slot or passes over a taken one. */
  lemma {:induction false} InsertProbeSafe(st: State, t: nat)
    requires Inv(st) && t < |st.threads| && st.threads[t].Insert?
    requires st.threads[t].insertAt.Claim? || st.threads[t].insertAt.Pass?
    ensures StepSafe(st, t, InsertStep(st, st.threads[t]))
  {
    var th := st.threads[t];
    AtSlot(st, t, Probe(st.bits, th.key, th.i));
    RankOfProbe(st.bits, th.key, th.i);
  }

  /** Insert when it looks at the entry of a taken slot. */
  lemma {:induction false} InsertCompareSafe(st: State, t: nat)
    requires Inv(st) && t < |st.threads| && st.threads[t].Insert?
    requires var at := st.threads[t].insertAt; at.TakeRefs? || at.ReadKey? || at.Boost? || at.DropRefs?
    ensures StepSafe(st, t, InsertStep(st, st.threads[t]))
  {
    var th := st.threads[t];
    AtSlot(st, t, Probe(st.bits, th.key, th.i));
  }

  /** Insert once it owns a slot. */
  lemma {:induction false} InsertFinishSafe(st: State, t: nat)
    requires Inv(st) && t < |st.threads| && st.threads[t].Insert?
    requires st.threads[t].insertAt.Fill? || st.threads[t].insertAt.Publish?
    ensures StepSafe(st, t, InsertStep(st, st.threads[t]))
  {
    var th := st.threads[t];
    AtSlot(st, t, Probe(st.bits, th.key, th.i));
    RankOfProbe(st.bits, th.key, th.i);
    assert Knows(st.bits, st.slots, th);
  }

  lemma {:induction false} LookupStepSafe(st: State, t: nat)
    requires Inv(st) && t < |st.threads| && st.threads[t].Lookup?
    ensures StepSafe(st, t, LookupStep(st, st.threads[t]))
  {
    var th := st.threads[t];
    AtSlot(st, t, Probe(st.bits, th.key, th.i));
  }

  /** Erase while it looks for its key. */
  lemma {:induction false} EraseSearchSafe(st: State, t: nat)
    requires Inv(st) && t < |st.threads| && st.threads[t].Erase?
    requires !st.threads[t].eraseAt.Take? && !st.threads[t].eraseAt.Clear?
    ensures StepSafe(st, t, EraseStep(st, st.threads[t]))
  {
    var th := st.threads[t];
    AtSlot(st, t, Probe(st.bits, th.key, th.i));
    assert Knows(st.bits, st.slots, th);
  }

  /** Erase when it tries to take the entry it has hidden. */
  lemma {:induction false} EraseTakeSafe(st: State, t: nat)
    requires Inv(st) && t < |st.threads| && st.threads[t].Erase? && st.threads[t].eraseAt.Take?
    ensures StepSafe(st, t, EraseStep(st, st.threads[t]))
  {
    var th := st.threads[t];
    AtSlot(st, t, Probe(st.bits, th.key, th.i));
    RankOfProbe(st.bits, th.key, th.i);
    assert Knows(st.bits, st.slots, th);
    var e := EraseStep(st, th);
    assert InRange(st.bits, e.thread);
    assert OwnersAfter(st, t, e) == if e.slot.meta.state.Construction? then 1 else 0;
  }

  lemma {:induction false} EraseClearSafe(st: State, t: nat)
    requires Inv(st) && t < |st.threads| && st.threads[t].Erase? && st.threads[t].eraseAt.Clear?
    ensures StepSafe(st, t, EraseStep(st, st.threads[t]))
  {
    var th := st.threads[t];
    AtSlot(st, t, Probe(st.bits, th.key, th.i));
  }

  /** A compare-exchange that succeeds on an unreferenced entry makes the thread its only owner. */
  lemma {:induction false} TakenSafe(st: State, t: nat, s: nat)
    requires Inv(st) && t < |st.threads| && s < Pow2(st.bits)
    requires Shareable(st.slots[s].meta.state) && RefCount(st.slots[s].meta) == 0
    requires st.threads[t].Release? || st.threads[t].Evict? || st.threads[t].Purge?
    ensures StepSafe(st, t, Effect(Free(s, st.slots[s].key, 0), s, WithMeta(st.slots[s], OWNED), 0, 0))
  {
    AtSlot(st, t, s);
    var e := Effect(Free(s, st.slots[s].key, 0), s, WithMeta(st.slots[s], OWNED), 0, 0);
    assert InRange(st.bits, e.thread);
  }

  lemma {:induction false} TakeOwnershipSafe(st: State, t: nat, s: nat, copy: Meta, otherwise: Thread)
    requires Inv(st) && t < |st.threads| && s < Pow2(st.bits)
    requires Shareable(copy.state) && RefCount(copy) == 0
    requires st.threads[t].Release? || st.threads[t].Evict? || st.threads[t].Purge?
    requires otherwise.Idle? || (otherwise.Release? && otherwise.s == s)
    ensures StepSafe(st, t, TakeOwnership(st, s, copy, otherwise))
  {
    if st.slots[s].meta == copy {
      TakenSafe(st, t, s);
    } else {
      AtSlot(st, t, s);
      assert st.slots[s := st.slots[s]] == st.slots;
    }
  }

  lemma {:induction false} EvictStepSafe(st: State, t: nat)
    requires Inv(st) && t < |st.threads| && st.threads[t].Evict?
    ensures StepSafe(st, t, EvictStep(st, st.threads[t].s, st.threads[t].copy))
  {
    var s, copy := st.threads[t].s, st.threads[t].copy;
    if copy.acquire != copy.release || !Shareable(copy.state) {
      QuietStepSafe(st, t, Idle(Nothing));
    } else if copy.state.Visible? && copy.acquire > 0 {
      AtSlot(st, t, s);
    } else {
      TakeOwnershipSafe(st, t, s, copy, Idle(Nothing));
    }
  }

  lemma {:induction false} FreeStepSafe(st: State, t: nat)
    requires Inv(st) && t < |st.threads| && st.threads[t].Free?
    ensures StepSafe(st, t, FreeStep(st, st.threads[t].s, st.threads[t].key, st.threads[t].j))
  {
    var th := st.threads[t];
    var p := Probe(st.bits, th.key, th.j);
    RankOfProbe(st.bits, th.key, th.j);
    AtSlot(st, t, p);
    AtSlot(st, t, th.s);
    assert st.slots[p := st.slots[p]] == st.slots;
    var e := FreeStep(st, th.s, th.key, th.j);
    assert InRange(st.bits, e.thread);
    assert OwnersAfter(st, t, e) == if e.slot.meta.state.Construction? then 1 else 0;
  }

  lemma {:induction false} RollbackStepSafe(st: State, t: nat)
    requires Inv(st) && t < |st.threads|
    requires st.threads[t].InsertRollback? || st.threads[t].EraseRollback?
    ensures StepSafe(st, t, Move(st, st.threads[t], DoEvict(0)))
  {
    var th := st.threads[t];
    if th.j == th.i {
      QuietStepSafe(st, t, if th.InsertRollback? then Idle(Nothing) else Erase(th.key, th.i, GoOn));
    } else {
      RankOfProbe(st.bits, th.key, th.j);
      var p := Probe(st.bits, th.key, th.j);
      AtSlot(st, t, p);
      assert st.slots[p := st.slots[p]] == st.slots;
    }
  }

  lemma {:induction false} CommandStepSafe(st: State, t: nat, cmd: Command)
    requires Inv(st) && t < |st.threads| && st.threads[t].Idle?
    ensures StepSafe(st, t, CommandStep(st, st.threads[t], cmd))
  {
    var th := st.threads[t];
    if (cmd.DoRef? || cmd.DoRelease?) && cmd.s < Pow2(st.bits) && st.handles[cmd.s] > 0 {
      AtSlot(st, t, cmd.s);
    } else {
      QuietStepSafe(st, t, CommandStep(st, th, cmd).thread);
    }
  }

  lemma {:induction false} MoveSafe(st: State, t: nat, cmd: Command)
    requires Inv(st) && t < |st.threads|
    ensures StepSafe(st, t, Move(st, st.threads[t], cmd))
  {
    match st.threads[t]
    case Idle(_) => CommandStepSafe(st, t, cmd);
    case Insert(_, _, _, _, at) =>
      if at.Fill? || at.Publish? { InsertFinishSafe(st, t); }
      else if at.Claim? || at.Pass? { InsertProbeSafe(st, t); }
      else { InsertCompareSafe(st, t); }
    case Lookup(_, _, _) => LookupStepSafe(st, t);
    case Erase(_, _, at) =>
      if at.Take? {
        EraseTakeSafe(st, t);
      } else if at.Clear? {
        EraseClearSafe(st, t);
      } else {
        EraseSearchSafe(st, t);
      }
    case InsertRollback(_, _, _) => RollbackStepSafe(st, t);
    case EraseRollback(_, _, _) => RollbackStepSafe(st, t);
    case Release(s, copy) =>
      if RefCount(copy) != 0 || !Shareable(copy.state) {
        QuietStepSafe(st, t, Idle(Nothing));
      } else {
        TakeOwnershipSafe(st, t, s, copy, Release(s, st.slots[s].meta));
      }
    case Evict(_, _) => EvictStepSafe(st, t);
    case Purge(s, copy) =>
      if !Shareable(copy.state) || RefCount(copy) != 0 {
        QuietStepSafe(st, t, Idle(Nothing));
      } else {
        TakeOwnershipSafe(st, t, s, copy, Idle(Nothing));
      }
    case Free(_, _, _) => FreeStepSafe(st, t);
  }

  // ----- runs

  /** Which thread moves, and what it starts if it is idle. */
  datatype Choice = Choice(thread: nat, command: Command)

  ghost predicate Start(st: State) {
    && Shaped(st)
    && (forall s :: 0 <= s < |st.slots| ==> st.slots[s].meta == CLEARED)
    && (forall s :: 0 <= s < |st.slots| ==> st.displacements[s] == 0 && st.handles[s] == 0)
    && (forall t :: 0 <= t < |st.threads| ==> st.threads[t].Idle?)
  }

  ghost predicate Next(st: State, c: Choice, st': State) {
    && Shaped(st) && AllInRange(st.bits, st.threads) && c.thread < |st.threads|
    && st' == Apply(st, c.thread, Move(st, st.threads[c.thread], c.command))
  }

  ghost predicate IsRun(run: seq<State>, choices: seq<Choice>) {
    && |run| == |choices| + 1
    && Start(run[0])
    && forall x :: 0 <= x < |choices| ==> Next(run[x], choices[x], run[x + 1])
  }

  lemma {:induction false} StartHasNoWeight(bits: nat, what: Measure, ts: seq<Thread>, s: nat)
    requires s < Pow2(bits) && AllInRange(bits, ts) && forall t :: 0 <= t < |ts| ==> ts[t].Idle?
    ensures Total(bits, what, ts, s) == 0
  {
    if ts != [] {
      StartHasNoWeight(bits, what, ts[..|ts| - 1], s);
    }
  }

  lemma {:induction false} EmptyTablePassesNothing(bits: nat, slots: seq<Slot>, m: nat, s: nat)
    requires m <= |slots| == Pow2(bits) && s < Pow2(bits)
    requires forall e :: 0 <= e < |slots| ==> slots[e].meta == CLEARED
    ensures Passing(bits, slots, m, s) == 0
    decreases m
  {
    if m > 0 {
      EmptyTablePassesNothing(bits, slots, m - 1, s);
    }
  }

  lemma {:induction false} StartHolds(st: State)
    requires Start(st)
    ensures Inv(st)
  {
    forall s | 0 <= s < Pow2(st.bits)
      ensures SlotInv(st, s)
    {
      StartHasNoWeight(st.bits, References, st.threads, s);
      StartHasNoWeight(st.bits, Ownership, st.threads, s);
      StartHasNoWeight(st.bits, Displacing, st.threads, s);
      EmptyTablePassesNothing(st.bits, st.slots, |st.slots|, s);
    }
  }

  /** The invariant holds in every state of every interleaving. */
  lemma {:induction false} EveryRunKeepsInv(run: seq<State>, choices: seq<Choice>, x: nat)
    requires IsRun(run, choices) && x < |run|
    ensures Inv(run[x])
    decreases x
  {
    if x == 0 {
      StartHolds(run[0]);
    } else {
      EveryRunKeepsInv(run, choices, x - 1);
      var st, c := run[x - 1], choices[x - 1];
      assert Next(st, c, run[x]);
      MoveSafe(st, c.thread, c.command);
      StepKeepsInv(st, c.thread, Move(st, st.threads[c.thread], c.command));
    }
  }

  // ----- what users rely on

  /** In every state of every run: the counters of a shareable slot count its holders, a slot with a
      holder is shareable, and a slot under construction has exactly one owner. */
  lemma {:induction false} CountersCountHolders(run: seq<State>, choices: seq<Choice>, x: nat, s: nat)
    requires IsRun(run, choices) && x < |run| && s < Pow2(run[x].bits)
    ensures Inv(run[x])
    ensures Shareable(run[x].slots[s].meta.state) ==> RefCount(run[x].slots[s].meta) == Holders(run[x], s)
    ensures Holders(run[x], s) > 0 ==> Shareable(run[x].slots[s].meta.state)
    ensures run[x].slots[s].meta.state.Construction? <==>
      exists t :: 0 <= t < |run[x].threads| && Owns(run[x].bits, run[x].threads[t], s)
    ensures forall t, u ::
      (0 <= t < |run[x].threads| && 0 <= u < |run[x].threads| &&
       Owns(run[x].bits, run[x].threads[t], s) && Owns(run[x].bits, run[x].threads[u], s)) ==> t == u
  {
    EveryRunKeepsInv(run, choices, x);
    var st := run[x];
    assert SlotInv(st, s);
    forall t, u | 0 <= t < |st.threads| && 0 <= u < |st.threads|
      && Owns(st.bits, st.threads[t], s) && Owns(st.bits, st.threads[u], s)
      ensures t == u
    {
      TotalCoversPair(st.bits, Ownership, st.threads, t, u, s);
    }
    if st.slots[s].meta.state.Construction? {
      SomeOwner(st.bits, st.threads, s);
    }
    forall t | 0 <= t < |st.threads| && Owns(st.bits, st.threads[t], s)
      ensures st.slots[s].meta.state.Construction?
    {
      TotalCoversPair(st.bits, Ownership, st.threads, t, t, s);
    }
  }

  lemma {:induction false} SomeOwner(bits: nat, ts: seq<Thread>, s: nat)
    requires AllInRange(bits, ts) && s < Pow2(bits) && Total(bits, Ownership, ts, s) > 0
    ensures exists t :: 0 <= t < |ts| && Owns(bits, ts[t], s)
  {
    var last := |ts| - 1;
    if !Owns(bits, ts[last], s) {
      SomeOwner(bits, ts[..last], s);
      var t :| 0 <= t < last && Owns(bits, ts[..last][t], s);
      assert Owns(bits, ts[t], s);
    }
  }

  /** No step frees or overwrites an entry that a user or another thread refers to: an entry stops
      being shareable only when the moving thread holds every reference to it, and its key changes
      only when there is no reference at all. */
  lemma {:induction false} HeldEntryIsUntouched(st: State, c: Choice, st': State, s: nat)
    requires Inv(st) && Next(st, c, st') && s < Pow2(st.bits)
    ensures Shareable(st.slots[s].meta.state) && !Shareable(st'.slots[s].meta.state) ==>
      && st.handles[s] == 0
      && forall u :: 0 <= u < |st.threads| && u != c.thread ==> RefsHeld(st.bits, st.threads[u], s) == 0
    ensures st'.slots[s].key != st.slots[s].key ==>
      Holders(st, s) == 0 && Owns(st.bits, st.threads[c.thread], s)
  {
    var t := c.thread;
    var e := Move(st, st.threads[t], c.command);
    MoveSafe(st, t, c.command);
    StepKeepsInv(st, t, e);
    assert SlotInv(st, s) && SlotInv(st', s);
    TotalCoversPair(st.bits, Ownership, st.threads, t, t, s);
    if Shareable(st.slots[s].meta.state) && !Shareable(st'.slots[s].meta.state) {
      assert st'.handles[s] == 0 && Total(st.bits, References, st'.threads, s) == 0;
      forall u | 0 <= u < |st.threads| && u != t
        ensures RefsHeld(st.bits, st.threads[u], s) == 0
      {
        assert st'.threads[u] == st.threads[u];
        TotalCoversPair(st.bits, References, st'.threads, u, u, s);
      }
      OwnershipNeedsNoHandle(st, t, c.command);
    }
  }

  /** A step that takes a handle back leaves the slot as shareable as it was. */
  lemma {:induction false} OwnershipNeedsNoHandle(st: State, t: nat, cmd: Command)
    requires Inv(st) && t < |st.threads|
    ensures var e := Move(st, st.threads[t], cmd);
      e.hand != 0 && Shareable(st.slots[e.at].meta.state) ==> Shareable(e.slot.meta.state)
  {
  }

  /** As long as somebody holds a handle on a slot, it shows the same entry. */
  lemma {:induction false} HandleKeepsEntry(run: seq<State>, choices: seq<Choice>, a: nat, b: nat, s: nat)
    requires IsRun(run, choices) && a <= b < |run| && s < |run[a].slots|
    requires forall x :: a <= x <= b ==> s < |run[x].handles| && run[x].handles[s] > 0
    ensures s < |run[b].slots| && run[b].slots[s].key == run[a].slots[s].key
    ensures Shareable(run[b].slots[s].meta.state)
    decreases b
  {
    EveryRunKeepsInv(run, choices, b);
    assert SlotInv(run[b], s);
    if a < b {
      HandleKeepsEntry(run, choices, a, b - 1, s);
      EveryRunKeepsInv(run, choices, b - 1);
      assert Next(run[b - 1], choices[b - 1], run[b]);
      HeldEntryIsUntouched(run[b - 1], choices[b - 1], run[b], s);
    }
  }

  /** In every state of every run a slot's displacement count covers the entries that passed over it,
      and is exactly their number when no thread is in the middle of an operation. */
  lemma {:induction false} DisplacementsCoverPasses(run: seq<State>, choices: seq<Choice>, x: nat, s: nat)
    requires IsRun(run, choices) && x < |run| && s < Pow2(run[x].bits)
    ensures Inv(run[x])
    ensures run[x].displacements[s] >= Passing(run[x].bits, run[x].slots, |run[x].slots|, s)
    ensures (forall t :: 0 <= t < |run[x].threads| ==> run[x].threads[t].Idle?) ==>
      run[x].displacements[s] == Passing(run[x].bits, run[x].slots, |run[x].slots|, s)
  {
    EveryRunKeepsInv(run, choices, x);
    assert SlotInv(run[x], s);
    if forall t :: 0 <= t < |run[x].threads| ==> run[x].threads[t].Idle? {
      StartHasNoWeight(run[x].bits, Displacing, run[x].threads, s);
    }
  }

  /** A lookup for `key` that has not yet gone past slot `e`, or has found its key. */
  ghost predicate OnTrack(bits: nat, th: Thread, key: HashedKey, e: nat)
    requires e < Pow2(bits)
  {
    match th
    case Lookup(k, i, at) =>
      k == key && if at.Acquire? || at.Match? then i <= Rank(bits, key, e) else i < Rank(bits, key, e)
    case Idle(last) => last == Found(key)
    case _ => false
  }

  ghost predicate ShowsKey(st: State, key: HashedKey, e: nat) {
    e < |st.slots| && st.slots[e].meta.state.Visible? && st.slots[e].key == key
  }

  lemma {:induction false} LookupStaysOnTrack(st: State, c: Choice, st': State, u: nat, key: HashedKey, e: nat)
    requires Inv(st) && Next(st, c, st') && e < Pow2(st.bits) && u < |st.threads|
    requires ShowsKey(st, key, e)
    requires st.threads[u].Lookup? && OnTrack(st.bits, st.threads[u], key, e)
    ensures OnTrack(st.bits, st'.threads[u], key, e)
  {
    if c.thread == u {
      var th := st.threads[u];
      var s := Probe(st.bits, key, th.i);
      RankOfProbe(st.bits, key, th.i);
      assert SlotInv(st, s);
      PassingCovers(st.bits, st.slots, |st.slots|, e, s);
      assert Probe(st.bits, key, Rank(st.bits, key, e)) == e;
    }
  }

  /** A lookup never misses a key whose entry is visible from its first step to its last, whatever
      the other threads do. */
  lemma {:induction false} LookupNeverMisses(
    run: seq<State>, choices: seq<Choice>, a: nat, b: nat, u: nat, key: HashedKey, e: nat)
    requires IsRun(run, choices) && a <= b < |run|
    requires e < Pow2(run[a].bits) && u < |run[a].threads|
    requires run[a].threads[u] == Lookup(key, 0, Acquire)
    requires forall x :: a <= x <= b ==> ShowsKey(run[x], key, e)
    requires forall x :: a <= x < b ==> u < |run[x].threads| && run[x].threads[u].Lookup?
    ensures run[b].bits == run[a].bits && u < |run[b].threads| && OnTrack(run[b].bits, run[b].threads[u], key, e)
    ensures run[b].threads[u].Idle? ==> run[b].threads[u] == Idle(Found(key))
    decreases b
  {
    if a < b {
      LookupNeverMisses(run, choices, a, b - 1, u, key, e);
      EveryRunKeepsInv(run, choices, b - 1);
      assert Next(run[b - 1], choices[b - 1], run[b]);
      assert ShowsKey(run[b - 1], key, e);
      LookupStaysOnTrack(run[b - 1], choices[b - 1], run[b], u, key, e);
    }
  }
}
