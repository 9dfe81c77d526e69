/** What the operations of the slot protocol answer and achieve, whatever the other threads do: the entry that a
    lookup hands out has its key, an insert gives up only for want of room or on a match, no visible entry of the
    key outlives an erase, and every operation ends unless others keep changing the word it wants to exchange. */
module ClockAnswers {
  import opened Arithmetic
  import opened ProbeSequence
  import opened ClockProtocol
  import opened ClockSafety
  import opened ClockAccounts

  // ----- lookup

  /** A lookup hands out a handle exactly when it ends with its key found, on a shareable entry of that key. */
  lemma FoundHasItsKey(st: State, t: nat)
    requires Inv(st) && t < |st.threads| && st.threads[t].Lookup?
    ensures var th, e := st.threads[t], LookupStep(st, st.threads[t]);
      && (e.hand == 1 <==> e.thread.Idle? && e.thread.last.Found?)
      && (e.hand != 1 ==> e.hand == 0)
      && (e.hand == 1 ==>
            && e.thread == Idle(Found(th.key))
            && Shareable(st.slots[e.at].meta.state) && st.slots[e.at].key == th.key && e.slot == st.slots[e.at])
      && (e.thread.Idle? && e.hand == 0 ==> e.thread == Idle(Missing(th.key)))
  {
    AtSlot(st, t, Probe(st.bits, st.threads[t].key, st.threads[t].i));
  }

  /** In every interleaving: a lookup that ends with its key found has added a handle to a slot which shows an entry
      of that key from then on, as long as somebody holds a handle on it. */
  lemma {:induction false} LookupHandsOutItsKey(run: seq<State>, choices: seq<Choice>, x: nat, y: nat) returns (s: nat)
    requires IsRun(run, choices) && x < y < |run|
    requires var u := choices[x].thread;
      u < |run[x].threads| && run[x].threads[u].Lookup? && u < |run[x + 1].threads| &&
      run[x + 1].threads[u].Idle? && run[x + 1].threads[u].last.Found?
    ensures s < |run[x].handles| && s < |run[x + 1].handles| && run[x + 1].handles[s] == run[x].handles[s] + 1
    ensures run[x + 1].threads[choices[x].thread].last == Found(run[x].threads[choices[x].thread].key)
    ensures (forall z :: x < z <= y ==> s < |run[z].handles| && run[z].handles[s] > 0) ==>
      && s < |run[y].slots| && Shareable(run[y].slots[s].meta.state)
      && run[y].slots[s].key == run[x].threads[choices[x].thread].key
  {
    var st, c := run[x], choices[x];
    EveryRunKeepsInv(run, choices, x);
    assert Next(st, c, run[x + 1]);
    FoundHasItsKey(st, c.thread);
    s := LookupStep(st, st.threads[c.thread]).at;
    if forall z :: x < z <= y ==> s < |run[z].handles| && run[z].handles[s] > 0 {
      HandleKeepsEntry(run, choices, x + 1, y, s);
    }
  }

  // ----- insert

  /** An insert ends in one of three ways: it publishes an entry of its key with its countdown, with a handle
      exactly if one is to be kept; it gives an entry of its key as many releases as it has given it acquires; or it
      has passed over every slot. */
  lemma InsertEnds(st: State, t: nat)
    requires Inv(st) && t < |st.threads| && st.threads[t].Insert?
    ensures var th, e := st.threads[t], InsertStep(st, st.threads[t]);
      match e.thread
      case Idle(_) =>
        && st.slots[e.at].meta.state.Construction?
        && e.slot.key == th.key && e.slot.meta.state.Visible? && e.slot.meta.acquire == th.countdown
        && RefCount(e.slot.meta) == e.hand == if th.keep then 1 else 0
      case InsertRollback(key, i, j) =>
        && key == th.key && i == th.i && j == 0 && e.hand == 0
        && (|| i + 1 == Pow2(st.bits)
            || (&& Shareable(st.slots[e.at].meta.state) && st.slots[e.at].key == th.key
                && e.slot == AddRelease(st.slots[e.at], th.countdown)))
      case Insert(key, countdown, keep, _, _) =>
        key == th.key && countdown == th.countdown && keep == th.keep && e.hand == 0
      case _ => false
  {
    var th := st.threads[t];
    AtSlot(st, t, Probe(st.bits, th.key, th.i));
    assert Knows(st.bits, st.slots, th);
  }

  /** An insert that has not passed over slot `e`. */
  ghost predicate MayTake(bits: nat, th: Thread, key: HashedKey, e: nat)
    requires e < Pow2(bits)
  {
    match th
    case Insert(k, _, _, i, at) =>
      k == key && (at.Fill? || at.Publish? || (if at.Claim? then i <= Rank(bits, key, e) else i < Rank(bits, key, e)))
    case _ => false
  }

  /** While slot `e` is empty an insert does not pass over it. */
  lemma InsertKeepsRoom(st: State, c: Choice, st': State, u: nat, key: HashedKey, e: nat)
    requires Inv(st) && Next(st, c, st') && e < Pow2(st.bits) && u < |st.threads|
    requires st.slots[e].meta.state.Empty? && st'.slots[e].meta.state.Empty?
    requires MayTake(st.bits, st.threads[u], key, e) && st'.threads[u].Insert?
    ensures MayTake(st.bits, st'.threads[u], key, e)
  {
    if c.thread == u {
      var th := st.threads[u];
      RankOfProbe(st.bits, key, th.i);
      AtSlot(st, u, Probe(st.bits, key, th.i));
      assert Probe(st.bits, key, Rank(st.bits, key, e)) == e;
    }
  }

  /** While a slot stays empty an insert never gives up for want of room: it goes on, publishes its entry, or has
      found an entry of its key. */
  lemma {:induction false} InsertFindsRoom(
    run: seq<State>, choices: seq<Choice>, a: nat, b: nat, u: nat, key: HashedKey, e: nat)
    requires IsRun(run, choices) && a <= b < |run| && e < Pow2(run[a].bits) && u < |run[a].threads|
    requires run[a].threads[u].Insert? && run[a].threads[u].key == key
    requires run[a].threads[u].i == 0 && run[a].threads[u].insertAt.Claim?
    requires forall x :: a <= x <= b ==> e < |run[x].slots| && run[x].slots[e].meta.state.Empty?
    requires forall x :: a <= x < b ==> u < |run[x].threads| && run[x].threads[u].Insert?
    ensures run[b].bits == run[a].bits && u < |run[b].threads|
    ensures run[b].threads[u].Insert? ==> MayTake(run[b].bits, run[b].threads[u], key, e)
    ensures run[b].threads[u].InsertRollback? ==> a < b && run[b - 1].threads[u].insertAt.Boost?
    decreases b
  {
    if a < b {
      InsertFindsRoom(run, choices, a, b - 1, u, key, e);
      EveryRunKeepsInv(run, choices, b - 1);
      var st, c := run[b - 1], choices[b - 1];
      assert Next(st, c, run[b]);
      assert st.slots[e].meta.state.Empty? && run[b].slots[e].meta.state.Empty?;
      if run[b].threads[u].Insert? {
        InsertKeepsRoom(st, c, run[b], u, key, e);
      } else {
        assert c.thread == u;
        assert Rank(st.bits, key, e) < Pow2(st.bits);
      }
    }
  }

  // ----- erase

  /** An erase that has not gone past slot `e`. */
  ghost predicate MayErase(bits: nat, th: Thread, key: HashedKey, e: nat)
    requires e < Pow2(bits)
  {
    match th
    case Erase(k, i, at) =>
      k == key && if at.Pin? || at.Check? || at.Hide? then i <= Rank(bits, key, e) else i < Rank(bits, key, e)
    case EraseRollback(k, i, _) => k == key && i < Rank(bits, key, e)
    case _ => false
  }

  lemma EraseStaysBefore(st: State, c: Choice, st': State, u: nat, key: HashedKey, e: nat)
    requires Inv(st) && Next(st, c, st') && e < Pow2(st.bits) && u < |st.threads|
    requires ShowsKey(st, key, e) && ShowsKey(st', key, e) && MayErase(st.bits, st.threads[u], key, e)
    ensures MayErase(st.bits, st'.threads[u], key, e)
  {
    if c.thread == u {
      var th := st.threads[u];
      var s := Probe(st.bits, key, th.i);
      RankOfProbe(st.bits, key, th.i);
      assert SlotInv(st, s);
      PassingCovers(st.bits, st.slots, |st.slots|, e, s);
      assert Probe(st.bits, key, Rank(st.bits, key, e)) == e;
    }
  }

  /** An erase does not end while an entry of its key stays visible: whatever is visible from its first step on is
      hidden by it or by somebody else before it is done. */
  lemma {:induction false} NothingOutlivesErase(
    run: seq<State>, choices: seq<Choice>, a: nat, b: nat, u: nat, key: HashedKey, e: nat)
    requires IsRun(run, choices) && a <= b < |run| && e < Pow2(run[a].bits) && u < |run[a].threads|
    requires run[a].threads[u] == Erase(key, 0, Pin)
    requires forall x :: a <= x <= b ==> ShowsKey(run[x], key, e)
    ensures run[b].bits == run[a].bits && u < |run[b].threads| && MayErase(run[b].bits, run[b].threads[u], key, e)
    ensures !run[b].threads[u].Idle?
    decreases b
  {
    if a < b {
      NothingOutlivesErase(run, choices, a, b - 1, u, key, e);
      EveryRunKeepsInv(run, choices, b - 1);
      assert Next(run[b - 1], choices[b - 1], run[b]);
      assert ShowsKey(run[b - 1], key, e) && ShowsKey(run[b], key, e);
      EraseStaysBefore(run[b - 1], choices[b - 1], run[b], u, key, e);
    }
  }

  /** Only an erase of its own key hides an entry. */
  lemma OnlyEraseHides(st: State, c: Choice, st': State, s: nat)
    requires Inv(st) && Next(st, c, st') && s < Pow2(st.bits)
    requires st.slots[s].meta.state.Visible? && st'.slots[s].meta.state.Invisible?
    ensures st.threads[c.thread].Erase? && st.threads[c.thread].key == st.slots[s].key == st'.slots[s].key
  {
    var th := st.threads[c.thread];
    AtSlot(st, c.thread, s);
    assert Knows(st.bits, st.slots, th);
  }

  /** An erase that holds the only reference to the entry it has hidden, and finds the word as it knows it, takes the
      entry over and empties the slot; with other references it lets go. */
  lemma EraseTakesTheLast(st: State, t: nat)
    requires Inv(st) && t < |st.threads| && st.threads[t].Erase? && st.threads[t].eraseAt.Take?
    requires var th := st.threads[t]; st.slots[Probe(st.bits, th.key, th.i)].meta == th.eraseAt.copy
    ensures var th := st.threads[t];
      var s, e := Probe(st.bits, th.key, th.i), EraseStep(st, th);
      if Holders(st, s) == 1 then
        && e.thread == th.(eraseAt := Clear) && e.slot.meta == OWNED
        && EraseStep(Apply(st, t, e), e.thread).slot.meta == CLEARED
      else e.thread == th.(eraseAt := Unpin) && e.slot == st.slots[s]
  {
    var th := st.threads[t];
    var s := Probe(st.bits, th.key, th.i);
    AtSlot(st, t, s);
    assert Knows(st.bits, st.slots, th);
  }

  /** The stages of an erase on one slot, the last one lowest. */
  function Stage(bits: nat, th: Thread): int {
    match th
    case Erase(_, _, at) =>
      (match at
       case Pin => Pow2(bits) + 7
       case Check => Pow2(bits) + 6
       case Hide => Pow2(bits) + 5
       case Take(_) => Pow2(bits) + 4
       case Unpin => Pow2(bits) + 3
       case Clear => Pow2(bits) + 3
       case GoOn => 0)
    case EraseRollback(_, i, j) => i - j + 1
    case _ => -1
  }

  /** An erase gets on with every step of its own, to a lower stage, to the next slot or to its end, unless another
      thread has changed the word that it wants to exchange. */
  lemma EraseGetsOn(st: State, t: nat, cmd: Command)
    requires Inv(st) && t < |st.threads| && (st.threads[t].Erase? || st.threads[t].EraseRollback?)
    ensures var th, th' := st.threads[t], Move(st, st.threads[t], cmd).thread;
      || th'.Idle?
      || ((th'.Erase? || th'.EraseRollback?) && th'.key == th.key && th.i < th'.i < Pow2(st.bits))
      || ((th'.Erase? || th'.EraseRollback?) && th'.key == th.key && th'.i == th.i &&
          0 <= Stage(st.bits, th') < Stage(st.bits, th))
      || (th.Erase? && th.eraseAt.Take? && st.slots[Probe(st.bits, th.key, th.i)].meta != th.eraseAt.copy)
  {
    assert InRange(st.bits, st.threads[t]);
  }

  // ----- operations end

  /** Steps that a lookup, or an insert with its rollback, has at most left to make. */
  function ToGo(bits: nat, th: Thread): int {
    match th
    case Lookup(_, i, at) =>
      (Pow2(bits) - i) * 4 - (match at case Acquire => 0 case Match => 1 case Undo => 2 case Continue => 3)
    case Insert(_, _, _, i, at) =>
      (Pow2(bits) - i) * 8 + Pow2(bits)
      - (match at
         case Claim => 0
         case TakeRefs => 1
         case ReadKey => 2
         case Boost => 3
         case DropRefs => 3
         case Pass => 4
         case Fill => 5
         case Publish => 6)
    case InsertRollback(_, i, j) => i - j + 1
    case _ => 0
  }

  /** A lookup or an insert gets closer to its end with every step of its own, whatever the slots hold. */
  lemma OwnStepCounts(st: State, t: nat, cmd: Command)
    requires Inv(st) && t < |st.threads|
    requires st.threads[t].Lookup? || st.threads[t].Insert? || st.threads[t].InsertRollback?
    ensures var th' := Move(st, st.threads[t], cmd).thread;
      && 0 <= ToGo(st.bits, th') < ToGo(st.bits, st.threads[t]) <= 9 * Pow2(st.bits)
      && (st.threads[t].Lookup? ==> th'.Lookup? || th'.Idle?)
      && (st.threads[t].Insert? ==> th'.Insert? || th'.InsertRollback? || th'.Idle?)
      && (st.threads[t].InsertRollback? ==> th'.InsertRollback? || th'.Idle?)
  {
    assert InRange(st.bits, st.threads[t]);
  }

  /** How many of the choices are the thread's. */
  function OwnSteps(choices: seq<Choice>, u: nat): nat {
    if choices == [] then 0
    else OwnSteps(choices[..|choices| - 1], u) + if choices[|choices| - 1].thread == u then 1 else 0
  }

  ghost predicate InOperation(run: seq<State>, u: nat, x: nat)
    requires x < |run|
  {
    && u < |run[x].threads|
    && (run[x].threads[u].Lookup? || run[x].threads[u].Insert? || run[x].threads[u].InsertRollback?)
  }

  lemma StepsCountDown(run: seq<State>, choices: seq<Choice>, x: nat, u: nat)
    requires IsRun(run, choices) && x + 1 < |run| && InOperation(run, u, x) && InOperation(run, u, x + 1)
    ensures run[x].bits == run[x + 1].bits
    ensures ToGo(run[x + 1].bits, run[x + 1].threads[u]) + (if choices[x].thread == u then 1 else 0) <=
      ToGo(run[x].bits, run[x].threads[u])
  {
    EveryRunKeepsInv(run, choices, x);
    assert Next(run[x], choices[x], run[x + 1]);
    if choices[x].thread == u {
      OwnStepCounts(run[x], u, choices[x].command);
    }
  }

  /** Something that falls with every step of a thread, and never rises, bounds how many there are. */
  lemma {:induction false} CountsDown(left: seq<int>, choices: seq<Choice>, a: nat, b: nat, u: nat)
    requires a <= b < |left| && b <= |choices|
    requires forall x :: a <= x < b ==> left[x + 1] + (if choices[x].thread == u then 1 else 0) <= left[x]
    ensures OwnSteps(choices[a..b], u) + left[b] <= left[a]
    decreases b
  {
    if a < b {
      CountsDown(left, choices, a, b - 1, u);
      assert choices[a..b][..b - a - 1] == choices[a..b - 1];
      assert left[b - 1 + 1] + (if choices[b - 1].thread == u then 1 else 0) <= left[b - 1];
    }
  }

  lemma OwnStepsAreBounded(run: seq<State>, choices: seq<Choice>, a: nat, b: nat, u: nat)
    requires IsRun(run, choices) && a <= b < |run|
    requires forall x :: a <= x <= b ==> InOperation(run, u, x)
    ensures InOperation(run, u, a) && InOperation(run, u, b)
    ensures OwnSteps(choices[a..b], u) + ToGo(run[b].bits, run[b].threads[u]) <= ToGo(run[a].bits, run[a].threads[u])
  {
    var left := seq(|run|, x requires 0 <= x < |run| =>
      if InOperation(run, u, x) then ToGo(run[x].bits, run[x].threads[u]) else 0);
    forall x | a <= x < b
      ensures left[x + 1] + (if choices[x].thread == u then 1 else 0) <= left[x]
    {
      assert InOperation(run, u, x) && InOperation(run, u, x + 1);
      StepsCountDown(run, choices, x, u);
    }
    CountsDown(left, choices, a, b, u);
    assert InOperation(run, u, a) && InOperation(run, u, b);
  }

  /** Lookups and inserts are wait-free: in every interleaving a thread is in one of them for a bounded number of
      steps of its own, however many steps the others make and whatever those do. */
  lemma OperationsAreWaitFree(run: seq<State>, choices: seq<Choice>, a: nat, b: nat, u: nat)
    requires IsRun(run, choices) && a <= b < |run|
    requires forall x :: a <= x <= b ==> InOperation(run, u, x)
    ensures OwnSteps(choices[a..b], u) < 9 * Pow2(run[a].bits)
  {
    OwnStepsAreBounded(run, choices, a, b, u);
    EveryRunKeepsInv(run, choices, a);
    EveryRunKeepsInv(run, choices, b);
    OwnStepCounts(run[a], u, DoEvict(0));
    OwnStepCounts(run[b], u, DoEvict(0));
  }

  // ----- a thread by itself

  /** The state after one step of thread `t`. */
  ghost function After(st: State, t: nat, cmd: Command): (st': State)
    requires Inv(st) && t < |st.threads|
    ensures Inv(st') && |st'.threads| == |st.threads| && st'.bits == st.bits
  {
    MoveSafe(st, t, cmd);
    StepKeepsInv(st, t, Move(st, st.threads[t], cmd));
    Apply(st, t, Move(st, st.threads[t], cmd))
  }

  /** By itself an eviction does to a slot what one undisturbed clock update does, and takes over what that clears. */
  lemma EvictTicks(st: State, t: nat, s: nat)
    requires Inv(st) && t < |st.threads| && st.threads[t].Idle? && s < Pow2(st.bits)
    ensures var was, now := st.slots[s], After(After(st, t, DoEvict(s)), t, DoEvict(s));
      if Unreferenced(was.meta) && Ticked(was.meta) == CLEARED then
        now.threads[t] == Free(s, was.key, 0) && now.slots == st.slots[s := WithMeta(was, OWNED)]
      else now.threads[t].Idle? && now.slots == st.slots[s := WithMeta(was, Ticked(was.meta))]
  {
    assert After(st, t, DoEvict(s)).slots == st.slots;
  }

  /** By itself a purge takes over exactly the entries that nobody refers to. */
  lemma PurgeTakes(st: State, t: nat, s: nat)
    requires Inv(st) && t < |st.threads| && st.threads[t].Idle? && s < Pow2(st.bits)
    ensures var was, now := st.slots[s], After(After(st, t, DoPurge(s)), t, DoPurge(s));
      if Shareable(was.meta.state) && Holders(st, s) == 0 then
        now.threads[t] == Free(s, was.key, 0) && now.slots == st.slots[s := WithMeta(was, OWNED)]
      else now.threads[t].Idle? && now.slots == st.slots
  {
    AtSlot(st, t, s);
    assert After(st, t, DoPurge(s)).slots == st.slots;
  }

  /** Another reference to a slot that a user refers to already. */
  lemma RefAdds(st: State, t: nat, s: nat)
    requires Inv(st) && t < |st.threads| && st.threads[t].Idle? && s < Pow2(st.bits) && st.handles[s] > 0
    ensures var now := After(st, t, DoRef(s));
      && now.handles == st.handles[s := st.handles[s] + 1] && now.threads[t].Idle?
      && RefCount(now.slots[s].meta) == RefCount(st.slots[s].meta) + 1 && now.slots[s].key == st.slots[s].key
  {
  }

  /** Releasing a handle gives one reference back; a useful release leaves the acquire counter, which is what the
      clock counts down from. By itself it takes the entry over exactly if nobody refers to it any more and it is
      invisible or the caller asks for it. */
  lemma ReleaseTakes(st: State, t: nat, s: nat, useful: bool, eraseIfLast: bool)
    requires Inv(st) && t < |st.threads| && st.threads[t].Idle? && s < Pow2(st.bits) && st.handles[s] > 0
    ensures var was, mid := st.slots[s], After(st, t, DoRelease(s, useful, eraseIfLast));
      && mid.handles == st.handles[s := st.handles[s] - 1]
      && mid.slots[s].key == was.key && mid.slots[s].meta.state == was.meta.state
      && mid.slots[s].meta.acquire == was.meta.acquire - (if useful then 0 else 1)
      && RefCount(mid.slots[s].meta) == RefCount(was.meta) - 1
      && if eraseIfLast || was.meta.state.Invisible? then
           var now := After(mid, t, DoRelease(s, useful, eraseIfLast));
           if Holders(st, s) == 1 then
             now.threads[t] == Free(s, was.key, 0) && now.slots[s] == WithMeta(was, OWNED)
           else now.threads[t].Idle? && now.slots == mid.slots
         else mid.threads[t].Idle?
  {
    AtSlot(st, t, s);
  }

  ghost function Alone(st: State, t: nat, n: nat): (st': State)
    requires Inv(st) && t < |st.threads|
    ensures Inv(st') && |st'.threads| == |st.threads| && st'.bits == st.bits
    decreases n
  {
    if n == 0 then st else Alone(After(st, t, DoEvict(0)), t, n - 1)
  }

  /** By itself a thread that has taken an entry over empties its slot, and takes one displacement back from each slot
      that the entry passed over. */
  lemma {:induction false} FreeClears(st: State, t: nat)
    requires Inv(st) && t < |st.threads| && st.threads[t].Free?
    ensures var th := st.threads[t];
      var left := Rank(st.bits, th.key, th.s) - th.j;
      && left >= 0
      && var now := Alone(st, t, left + 1);
         && now.threads[t].Idle? && now.slots == st.slots[th.s := WithMeta(st.slots[th.s], CLEARED)]
         && forall p: nat :: p < Pow2(st.bits) ==>
           now.displacements[p] == st.displacements[p] -
             if th.j <= Rank(st.bits, th.key, p) < Rank(st.bits, th.key, th.s) then 1 else 0
    decreases Rank(st.bits, st.threads[t].key, st.threads[t].s) - st.threads[t].j
  {
    var th := st.threads[t];
    assert InRange(st.bits, th);
    RankOfProbe(st.bits, th.key, th.j);
    var next := After(st, t, DoEvict(0));
    if Probe(st.bits, th.key, th.j) != th.s {
      FreeClears(next, t);
      assert next.slots == st.slots;
    }
  }
}
