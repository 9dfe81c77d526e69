/** Usage and occupancy of HyperClockTable while operations overlap.

    Beside the steps of the slot protocol each thread makes atomic updates of usage_ and occupancy_, and
    between two of them one or both differ from what is in the table. What a thread owes in the meantime
    is a function of where it is, and in every interleaving the counters differ from the table by exactly
    what all threads owe. */
module ClockLedger {
  import opened ProbeSequence
  import opened ClockProtocol
  import opened ClockSafety
  import opened ClockAccounts

  /** What an insert, or the creation of a standalone entry, was asked for. */
  datatype Order = Order(
    key: HashedKey, charge: nat, countdown: nat, wantHandle: bool, standalone: bool, allowUncharged: bool,
    capacity: nat, strict: bool)

  /** What charging has done: `have` is already part of the usage, `need` has to be evicted for the rest, and
      entries of `freed` in charge and `count` in number have left the table. */
  datatype Tally = Tally(have: int, need: int, freed: nat, count: nat)

  /** Where a thread is in its accounting. `crowded` says that the table has no room for one more, and `again`
      that a compare-exchange has failed. */
  datatype Job =
    | Rest
    | Announced(order: Order, crowded: bool)
    | Loaded(order: Order, crowded: bool, oldUsage: int, again: bool)
    | Evicting(order: Order, crowded: bool, tally: Tally)
    | Counting(order: Order, crowded: bool, tally: Tally)
    | Adjusting(order: Order, crowded: bool, tally: Tally)
    | Refused(order: Order)
    | Crowded(order: Order)
    | Forced(order: Order)
    | Placing(order: Order, started: bool)
    | Unplaced(order: Order)
    | Detaching(charge: nat)
    | Reclaiming(charge: nat)
    | Freeing(charge: nat)
    | Uncharging(charge: nat)

  /** Insert counts its entry before anything else; a standalone entry is not counted. */
  function Counted(o: Order): nat {
    if o.standalone then 0 else 1
  }

  /** What the usage contains for a thread beyond what is in the table. */
  function Owed(job: Job): int {
    match job
    case Evicting(_, _, tally) => tally.have + tally.freed
    case Counting(_, _, tally) => tally.have + tally.freed
    case Adjusting(_, _, tally) => tally.have + tally.freed
    case Placing(order, _) => order.charge
    case Unplaced(order) => order.charge
    case Detaching(charge) => charge
    case Reclaiming(charge) => charge
    case Freeing(charge) => charge
    case Uncharging(charge) => charge
    case _ => 0
  }

  /** The same for the occupancy. */
  function OwedCount(job: Job): int {
    match job
    case Announced(order, _) => Counted(order)
    case Loaded(order, _, _, _) => Counted(order)
    case Evicting(order, _, tally) => Counted(order) + tally.count
    case Counting(order, _, tally) => Counted(order) + tally.count
    case Adjusting(order, _, _) => Counted(order)
    case Refused(order) => Counted(order)
    case Crowded(_) => 1
    case Placing(_, _) => 1
    case Unplaced(_) => 1
    case Reclaiming(_) => 1
    case _ => 0
  }

  /** The same for the standalone usage, which a standalone entry leaves before its charge leaves the usage. */
  function OwedAlone(job: Job): nat {
    match job
    case Freeing(charge) => charge
    case _ => 0
  }

  datatype World = World(
    table: State,
    charges: seq<nat>,
    alone: seq<Detached>,
    fixedUsage: nat,
    limit: nat,
    usage: int,
    occupancy: int,
    standaloneUsage: int,
    jobs: seq<Job>)

  // ----- accounting steps

  /** One atomic update: what is added to the counters, and the standalone entries after it. */
  datatype Update = Update(job: Job, usage: int, occupancy: int, alone: seq<Detached>, standalone: int := 0)

  function Enter(w: World, t: nat, u: Update): World
    requires t < |w.jobs|
  {
    w.(usage := w.usage + u.usage, occupancy := w.occupancy + u.occupancy, alone := u.alone,
       standaloneUsage := w.standaloneUsage + u.standalone, jobs := w.jobs[t := u.job])
  }

  function Quietly(w: World, job: Job): Update {
    Update(job, 0, 0, w.alone)
  }

  /** Once the charge is part of the usage: into the table, or beside it. */
  function Charged(o: Order): Job {
    if o.standalone then Detaching(o.charge) else Placing(o, false)
  }

  /** Evict unless there is nothing to evict for. */
  function EvictFor(o: Order, crowded: bool, have: int, need: int): Job {
    if need > 0 || crowded then Evicting(o, crowded, Tally(have, need, 0, 0)) else Charged(o)
  }

  /** ChargeUsageMaybeEvictNonStrict up to its eviction. */
  function NonStrictNeed(o: Order, usage: int): int {
    if usage + o.charge <= o.capacity || o.charge > usage then 0
    else if usage > o.capacity then
      o.charge + (if o.capacity / 1024 < o.charge then o.capacity / 1024 else o.charge) + 1
    else o.charge
  }

  /** The first load of the usage. */
  function LoadStep(w: World, o: Order, crowded: bool): Update {
    if o.strict then
      if o.charge > o.capacity then Quietly(w, Refused(o)) else Quietly(w, Loaded(o, crowded, w.usage, false))
    else
      var need := NonStrictNeed(o, w.usage);
      if need > 0 || crowded then Quietly(w, Evicting(o, crowded, Tally(0, need, 0, 0)))
      else Quietly(w, Adjusting(o, crowded, Tally(0, 0, 0, 0)))
  }

  /** ChargeUsageMaybeEvictStrict: take what capacity there is with a compare-exchange, or load again. */
  function ReserveStep(w: World, o: Order, crowded: bool, oldUsage: int, again: bool): Update {
    if oldUsage == o.capacity && !again then Quietly(w, EvictFor(o, crowded, 0, o.charge))
    else if w.usage != oldUsage then Quietly(w, Loaded(o, crowded, w.usage, true))
    else
      var newUsage := if o.capacity < oldUsage + o.charge then o.capacity else oldUsage + o.charge;
      Update(EvictFor(o, crowded, newUsage - oldUsage, oldUsage + o.charge - newUsage), newUsage - oldUsage, 0, w.alone)
  }

  /** The occupancy gives up what was evicted, unless nothing was and the table needed it. */
  function CountStep(w: World, o: Order, crowded: bool, tally: Tally): Update {
    if !o.strict && crowded && tally.count == 0 then Quietly(w, Crowded(o))
    else Update(Adjusting(o, crowded, tally), 0, 0 - tally.count, w.alone)
  }

  /** The usage settles: more evicted than needed, not enough, or just right. */
  function AdjustStep(w: World, o: Order, crowded: bool, tally: Tally): Update {
    if !o.strict then Update(Charged(o), o.charge - tally.freed, 0, w.alone)
    else if tally.freed > tally.need then Update(Charged(o), 0 - (tally.freed - tally.need), 0, w.alone)
    else if tally.freed < tally.need || (crowded && tally.count == 0) then
      Update(Refused(o), 0 - (tally.freed + tally.have), 0, w.alone)
    else Quietly(w, Charged(o))
  }

  /** The next accounting step of a thread. */
  function AccountStep(w: World, job: Job): Update {
    match job
    case Announced(o, crowded) => LoadStep(w, o, crowded)
    case Loaded(o, crowded, oldUsage, again) => ReserveStep(w, o, crowded, oldUsage, again)
    case Counting(o, crowded, tally) => CountStep(w, o, crowded, tally)
    case Adjusting(o, crowded, tally) => AdjustStep(w, o, crowded, tally)
    case Refused(o) =>
      Update(if o.standalone && o.allowUncharged then Detaching(0) else Rest, 0, 0 - Counted(o), w.alone)
    case Crowded(o) => Update(if o.wantHandle then Forced(o) else Rest, 0, -1, w.alone)
    case Forced(o) => Update(Detaching(o.charge), o.charge, 0, w.alone)
    case Unplaced(o) => Update(if o.wantHandle then Detaching(o.charge) else Uncharging(o.charge), 0, -1, w.alone)
    case Detaching(charge) => Update(Rest, 0, 0, w.alone + [Detached(charge, 1)], charge)
    case Reclaiming(charge) => Update(Uncharging(charge), 0, -1, w.alone)
    case Freeing(charge) => Update(Uncharging(charge), 0, 0, w.alone, 0 - charge)
    case Uncharging(charge) => Update(Rest, 0 - charge, 0, w.alone)
    case _ => Quietly(w, job)
  }

  // ----- the steps of a thread

  datatype Act =
    | Begin(order: Order)
    | Account
    | EndEviction
    | Protocol(command: Command)
    | RefAlone(id: nat)
    | ReleaseAlone(id: nat)

  /** The step takes an entry out of the table. */
  predicate TakesOver(th: Thread, e: Effect) {
    || ((th.Evict? || th.Release? || th.Purge?) && e.thread.Free?)
    || (th.Erase? && th.eraseAt.Take? && e.thread.Erase? && e.thread.eraseAt.Clear?)
  }

  /** The step puts an entry into the table. */
  predicate Publishes(th: Thread) {
    th.Insert? && th.insertAt.Publish?
  }

  /** Which protocol steps a thread makes while it is in the middle of its accounting: eviction only to make
      room, one insert for each order, and nothing before a freed entry is reclaimed, which happens
      once the slot is empty. */
  predicate Allowed(job: Job, th: Thread, cmd: Command) {
    if th.Idle? then
      match cmd
      case DoEvict(_) => job.Evicting?
      case DoInsert(key, countdown, keep) =>
        job.Placing? && !job.started && key == job.order.key && countdown == job.order.countdown &&
        keep == job.order.wantHandle
      case _ => job.Rest?
    else job.Reclaiming? || job.Uncharging? ==> th.Free? || (th.Erase? && th.eraseAt.Clear?)
  }

  function JobAfter(job: Job, th: Thread, e: Effect, charge: nat): Job {
    if th.Idle? && e.thread.Insert? && job.Placing? then Placing(job.order, true)
    else if Publishes(th) then Rest
    else if th.InsertRollback? && e.thread.Idle? && job.Placing? then Unplaced(job.order)
    else if TakesOver(th, e) then
      if job.Evicting? then
        var tally := job.tally;
        Evicting(job.order, job.crowded, Tally(tally.have, tally.need, tally.freed + charge, tally.count + 1))
      else Reclaiming(charge)
    else job
  }

  predicate Shape(w: World) {
    |w.charges| == |w.table.slots| && |w.jobs| == |w.table.threads|
  }

  /** A thread with nothing else to do uses a reference to a standalone entry. */
  predicate MayUse(w: World, t: nat, id: nat)
    requires Shape(w) && t < |w.jobs|
  {
    w.jobs[t].Rest? && w.table.threads[t].Idle? && id < |w.alone| && w.alone[id].refs > 0
  }

  function RefStep(w: World, id: nat): Update
    requires id < |w.alone|
  {
    Update(Rest, 0, 0, w.alone[id := Detached(w.alone[id].charge, w.alone[id].refs + 1)])
  }

  /** The last reference frees the entry, whose charge is then still part of both usages. */
  function ReleaseStep(w: World, id: nat): Update
    requires id < |w.alone| && w.alone[id].refs > 0
  {
    var d := w.alone[id];
    Update(if d.refs == 1 then Freeing(d.charge) else Rest, 0, 0,
           w.alone[id := Detached(d.charge, d.refs - 1)])
  }

  ghost function ProtocolStep(w: World, t: nat, cmd: Command): World
    requires Shape(w) && Inv(w.table) && t < |w.jobs|
  {
    var th, job := w.table.threads[t], w.jobs[t];
    if !Allowed(job, th, cmd) then w
    else
      var e := Move(w.table, th, cmd);
      w.(table := ClockProtocol.Apply(w.table, t, e),
         charges := if Publishes(th) && job.Placing? then w.charges[e.at := job.order.charge] else w.charges,
         jobs := w.jobs[t := JobAfter(job, th, e, w.charges[e.at])])
  }

  ghost function Step(w: World, t: nat, act: Act): World
    requires Shape(w) && Inv(w.table) && t < |w.jobs|
  {
    var job := w.jobs[t];
    match act
    case Begin(o) =>
      if job.Rest? && w.table.threads[t].Idle? && o.countdown > 0 then
        Enter(w, t, Update(Announced(o, !o.standalone && w.occupancy + 1 > w.limit), 0, Counted(o), w.alone))
      else w
    case Account =>
      if w.table.threads[t].Idle? || w.table.threads[t].EraseRollback? then Enter(w, t, AccountStep(w, job)) else w
    case EndEviction =>
      if job.Evicting? && w.table.threads[t].Idle? then
        Enter(w, t, Quietly(w, Counting(job.order, job.crowded, job.tally)))
      else w
    case Protocol(cmd) => ProtocolStep(w, t, cmd)
    case RefAlone(id) => if MayUse(w, t, id) then Enter(w, t, RefStep(w, id)) else w
    case ReleaseAlone(id) => if MayUse(w, t, id) then Enter(w, t, ReleaseStep(w, id)) else w
  }

  // ----- the invariant

  function TotalOwed(jobs: seq<Job>): int {
    if jobs == [] then 0 else TotalOwed(jobs[..|jobs| - 1]) + Owed(jobs[|jobs| - 1])
  }

  function TotalCount(jobs: seq<Job>): int {
    if jobs == [] then 0 else TotalCount(jobs[..|jobs| - 1]) + OwedCount(jobs[|jobs| - 1])
  }

  function TotalAlone(jobs: seq<Job>): nat {
    if jobs == [] then 0 else TotalAlone(jobs[..|jobs| - 1]) + OwedAlone(jobs[|jobs| - 1])
  }

  lemma {:induction false} TotalsAfterUpdate(jobs: seq<Job>, t: nat, job: Job)
    requires t < |jobs|
    ensures TotalOwed(jobs[t := job]) == TotalOwed(jobs) - Owed(jobs[t]) + Owed(job)
    ensures TotalCount(jobs[t := job]) == TotalCount(jobs) - OwedCount(jobs[t]) + OwedCount(job)
    ensures TotalAlone(jobs[t := job]) == TotalAlone(jobs) - OwedAlone(jobs[t]) + OwedAlone(job)
  {
    var last := |jobs| - 1;
    if t == last {
      assert jobs[t := job][..last] == jobs[..last];
    } else {
      TotalsAfterUpdate(jobs[..last], t, job);
      assert jobs[t := job][..last] == jobs[..last][t := job];
    }
  }

  /** What a tally must add up to before the usage settles. */
  predicate TallyOk(o: Order, crowded: bool, tally: Tally) {
    && tally.need >= 0 && (tally.freed > 0 ==> tally.count > 0)
    && (if o.strict then tally.have + tally.need == o.charge else tally.have == 0)
    && (o.standalone ==> !crowded)
  }

  /** What a thread's accounting says about its place in the slot protocol, and the other way round. */
  predicate JobOk(job: Job, th: Thread) {
    && (match job
        case Announced(o, crowded) => o.standalone ==> !crowded
        case Loaded(o, crowded, _, _) => o.strict && (o.standalone ==> !crowded)
        case Evicting(o, crowded, tally) => TallyOk(o, crowded, tally)
        case Counting(o, crowded, tally) => TallyOk(o, crowded, tally)
        case Adjusting(o, crowded, tally) => TallyOk(o, crowded, tally)
        case Crowded(o) => !o.standalone
        case Placing(o, _) => !o.standalone
        case Unplaced(o) => !o.standalone
        case _ => true)
    && (th.Insert? || th.InsertRollback? <==> job.Placing? && job.started)
    && (th.Evict? ==> job.Evicting?)
    && (th.Release? || th.Purge? || th.Lookup? ==> job.Rest?)
    && (th.Free? ==> job.Evicting? || job.Reclaiming?)
    && (th.Erase? ==> job.Rest? || (job.Reclaiming? && th.eraseAt.Clear?))
    && (th.Erase? && th.eraseAt.Clear? ==> job.Reclaiming?)
    && (th.EraseRollback? ==> job.Rest? || job.Reclaiming? || job.Uncharging?)
  }

  /** The counters are what is there and what the threads owe. */
  predicate Books(w: World)
    requires Shape(w)
  {
    && w.usage == w.fixedUsage + ClockAccounts.Charged(w.table.slots, w.charges, |w.charges|) +
                  DetachedCharge(w.alone) + TotalOwed(w.jobs)
    && w.occupancy == Occupied(w.table.slots, |w.charges|) + TotalCount(w.jobs)
    && w.standaloneUsage == DetachedCharge(w.alone) + TotalAlone(w.jobs)
  }

  ghost predicate Good(w: World) {
    match w
    case World(table, _, _, _, _, _, _, _, jobs) =>
      Shape(w) && Inv(table) && Books(w) && forall t :: 0 <= t < |jobs| ==> JobOk(jobs[t], table.threads[t])
  }

  /** The update moves as much as it changes what is owed. */
  predicate Moves(w: World, job: Job, u: Update) {
    && u.usage == Owed(u.job) - Owed(job) + DetachedCharge(u.alone) - DetachedCharge(w.alone)
    && u.occupancy == OwedCount(u.job) - OwedCount(job)
    && u.standalone == OwedAlone(u.job) - OwedAlone(job) + DetachedCharge(u.alone) - DetachedCharge(w.alone)
  }

  /** An accounting step that moves as much as it changes what is owed keeps the books. */
  lemma EnterKeepsBooks(w: World, t: nat, u: Update)
    requires Shape(w) && Books(w) && t < |w.jobs|
    requires Moves(w, w.jobs[t], u)
    ensures Books(Enter(w, t, u))
  {
    TotalsAfterUpdate(w.jobs, t, u.job);
  }

  lemma AccountKeepsJob(w: World, job: Job, th: Thread)
    requires JobOk(job, th) && (th.Idle? || th.EraseRollback?)
    ensures JobOk(AccountStep(w, job).job, th)
  {
  }

  lemma ReserveMoves(w: World, o: Order, crowded: bool, oldUsage: int, again: bool)
    ensures Moves(w, Loaded(o, crowded, oldUsage, again), ReserveStep(w, o, crowded, oldUsage, again))
  {
  }

  lemma AdjustMoves(w: World, o: Order, crowded: bool, tally: Tally)
    requires TallyOk(o, crowded, tally)
    ensures Moves(w, Adjusting(o, crowded, tally), AdjustStep(w, o, crowded, tally))
  {
  }

  lemma LoadMoves(w: World, o: Order, crowded: bool)
    ensures Moves(w, Announced(o, crowded), LoadStep(w, o, crowded))
  {
  }

  lemma CountMoves(w: World, o: Order, crowded: bool, tally: Tally)
    requires TallyOk(o, crowded, tally)
    ensures Moves(w, Counting(o, crowded, tally), CountStep(w, o, crowded, tally))
  {
  }

  lemma AccountMovesWhatIsOwed(w: World, job: Job, th: Thread)
    requires JobOk(job, th)
    ensures Moves(w, job, AccountStep(w, job))
  {
    match job
    case Announced(o, crowded) => LoadMoves(w, o, crowded);
    case Loaded(o, crowded, oldUsage, again) => ReserveMoves(w, o, crowded, oldUsage, again);
    case Counting(o, crowded, tally) => CountMoves(w, o, crowded, tally);
    case Adjusting(o, crowded, tally) => AdjustMoves(w, o, crowded, tally);
    case Detaching(charge) => DetachedOneMore(w.alone, Detached(charge, 1));
    case _ =>
  }

  lemma AccountStepKeeps(w: World, t: nat)
    requires Good(w) && t < |w.jobs| && (w.table.threads[t].Idle? || w.table.threads[t].EraseRollback?)
    ensures Good(Enter(w, t, AccountStep(w, w.jobs[t])))
  {
    assert JobOk(w.jobs[t], w.table.threads[t]);
    AccountKeepsJob(w, w.jobs[t], w.table.threads[t]);
    AccountMovesWhatIsOwed(w, w.jobs[t], w.table.threads[t]);
    EnterKeepsBooks(w, t, AccountStep(w, w.jobs[t]));
  }

  /** A protocol step changes what is in the table exactly when it publishes an entry or takes one over. */
  lemma MembershipChanges(st: State, t: nat, cmd: Command)
    requires Inv(st) && t < |st.threads|
    ensures var th := st.threads[t];
      var e := Move(st, th, cmd);
      && (Publishes(th) ==> !Shareable(st.slots[e.at].meta.state) && Shareable(e.slot.meta.state))
      && (TakesOver(th, e) ==> Shareable(st.slots[e.at].meta.state) && !Shareable(e.slot.meta.state))
      && (!Publishes(th) && !TakesOver(th, e) ==>
            (Shareable(st.slots[e.at].meta.state) <==> Shareable(e.slot.meta.state)))
  {
    var th := st.threads[t];
    AtSlot(st, t, Move(st, th, cmd).at);
  }

  /** The thread's accounting after a protocol step still fits where the thread is. */
  lemma ProtocolKeepsJob(st: State, t: nat, cmd: Command, job: Job, charge: nat)
    requires Inv(st) && t < |st.threads| && JobOk(job, st.threads[t]) && Allowed(job, st.threads[t], cmd)
    ensures var e := Move(st, st.threads[t], cmd);
      JobOk(JobAfter(job, st.threads[t], e, charge), e.thread)
  {
  }

  /** What a protocol step moves in or out of the table it moves out of or into what the thread owes. */
  lemma ProtocolMovesWhatIsOwed(th: Thread, e: Effect, job: Job, charge: nat)
    requires JobOk(job, th)
    ensures var now := JobAfter(job, th, e, charge);
      && (Publishes(th) ==>
            job.Placing? && Owed(now) == Owed(job) - job.order.charge && OwedCount(now) == OwedCount(job) - 1)
      && (TakesOver(th, e) ==> Owed(now) == Owed(job) + charge && OwedCount(now) == OwedCount(job) + 1)
      && (!Publishes(th) && !TakesOver(th, e) ==> Owed(now) == Owed(job) && OwedCount(now) == OwedCount(job))
  {
  }

  lemma ProtocolKeepsBooks(w: World, t: nat, cmd: Command)
    requires Good(w) && t < |w.jobs|
    ensures Shape(ProtocolStep(w, t, cmd)) && Books(ProtocolStep(w, t, cmd))
  {
    var th, job := w.table.threads[t], w.jobs[t];
    assert JobOk(job, th);
    if Allowed(job, th, cmd) {
      var e := Move(w.table, th, cmd);
      var charge := if Publishes(th) && job.Placing? then job.order.charge else w.charges[e.at];
      MembershipChanges(w.table, t, cmd);
      ProtocolMovesWhatIsOwed(th, e, job, w.charges[e.at]);
      TotalsAfterUpdate(w.jobs, t, JobAfter(job, th, e, w.charges[e.at]));
      ChargedAfterUpdate(w.table.slots, w.charges, |w.charges|, e.at, e.slot, charge);
      OccupiedAfterUpdate(w.table.slots, |w.charges|, e.at, e.slot);
      assert w.charges[e.at := w.charges[e.at]] == w.charges;
    }
  }

  lemma ProtocolStepKeeps(w: World, t: nat, cmd: Command)
    requires Good(w) && t < |w.jobs|
    ensures Good(ProtocolStep(w, t, cmd))
  {
    var th, job := w.table.threads[t], w.jobs[t];
    assert JobOk(job, th);
    ProtocolKeepsBooks(w, t, cmd);
    if Allowed(job, th, cmd) {
      var e := Move(w.table, th, cmd);
      MoveSafe(w.table, t, cmd);
      StepKeepsInv(w.table, t, e);
      ProtocolKeepsJob(w.table, t, cmd, job, w.charges[e.at]);
    }
  }

  lemma AloneMoves(w: World, id: nat)
    requires id < |w.alone| && w.alone[id].refs > 0
    ensures Moves(w, Rest, RefStep(w, id)) && Moves(w, Rest, ReleaseStep(w, id))
  {
    var d := w.alone[id];
    DetachedAfterUpdate(w.alone, id, Detached(d.charge, d.refs + 1));
    DetachedAfterUpdate(w.alone, id, Detached(d.charge, d.refs - 1));
  }

  lemma AloneKeeps(w: World, t: nat, id: nat)
    requires Good(w) && t < |w.jobs|
    ensures MayUse(w, t, id) ==> Good(Enter(w, t, RefStep(w, id))) && Good(Enter(w, t, ReleaseStep(w, id)))
  {
    assert JobOk(w.jobs[t], w.table.threads[t]);
    if MayUse(w, t, id) {
      AloneMoves(w, id);
      EnterKeepsBooks(w, t, RefStep(w, id));
      EnterKeepsBooks(w, t, ReleaseStep(w, id));
    }
  }

  lemma BeginKeeps(w: World, t: nat, o: Order)
    requires Good(w) && t < |w.jobs|
    ensures Good(Step(w, t, Begin(o)))
  {
    assert JobOk(w.jobs[t], w.table.threads[t]);
    if w.jobs[t].Rest? && w.table.threads[t].Idle? && o.countdown > 0 {
      EnterKeepsBooks(w, t, Update(Announced(o, !o.standalone && w.occupancy + 1 > w.limit), 0, Counted(o), w.alone));
    }
  }

  lemma EndEvictionKeeps(w: World, t: nat)
    requires Good(w) && t < |w.jobs|
    ensures Good(Step(w, t, EndEviction))
  {
    var job := w.jobs[t];
    assert JobOk(job, w.table.threads[t]);
    if job.Evicting? && w.table.threads[t].Idle? {
      EnterKeepsBooks(w, t, Quietly(w, Counting(job.order, job.crowded, job.tally)));
    }
  }

  /** Every step of every thread keeps the counters in step with the table and what the threads owe. */
  lemma StepKeepsGood(w: World, t: nat, act: Act)
    requires Good(w) && t < |w.jobs|
    ensures Good(Step(w, t, act))
  {
    match act
    case Begin(o) => BeginKeeps(w, t, o);
    case Account =>
      if w.table.threads[t].Idle? || w.table.threads[t].EraseRollback? {
        AccountStepKeeps(w, t);
      }
    case EndEviction => EndEvictionKeeps(w, t);
    case Protocol(cmd) => ProtocolStepKeeps(w, t, cmd);
    case RefAlone(id) => AloneKeeps(w, t, id);
    case ReleaseAlone(id) => AloneKeeps(w, t, id);
  }

  // ----- runs

  datatype Turn = Turn(thread: nat, act: Act)

  ghost predicate Fresh(w: World) {
    && Shape(w) && Start(w.table)
    && w.alone == [] && w.usage == w.fixedUsage && w.occupancy == 0 && w.standaloneUsage == 0
    && forall t :: 0 <= t < |w.jobs| ==> w.jobs[t] == Rest
  }

  ghost predicate Follows(w: World, turn: Turn, w': World) {
    match turn
    case Turn(t, act) => Shape(w) && Inv(w.table) && t < |w.jobs| && w' == Step(w, t, act)
  }

  ghost predicate IsHistory(run: seq<World>, turns: seq<Turn>) {
    && |run| == |turns| + 1
    && Fresh(run[0])
    && forall x :: 0 <= x < |turns| ==> Follows(run[x], turns[x], run[x + 1])
  }

  lemma {:induction false} RestOwesNothing(jobs: seq<Job>)
    requires forall t :: 0 <= t < |jobs| ==> jobs[t] == Rest
    ensures TotalOwed(jobs) == TotalCount(jobs) == TotalAlone(jobs) == 0
  {
    if jobs != [] {
      RestOwesNothing(jobs[..|jobs| - 1]);
    }
  }

  lemma {:induction false} FreshIsGood(w: World)
    requires Fresh(w)
    ensures Good(w)
  {
    StartHolds(w.table);
    RestOwesNothing(w.jobs);
    NothingCounted(w.table.bits, w.table.slots, w.charges, |w.charges|, 0);
  }

  lemma {:induction false} EveryHistoryIsGood(run: seq<World>, turns: seq<Turn>, x: nat)
    requires IsHistory(run, turns) && x < |run|
    ensures Good(run[x])
    decreases x
  {
    if x == 0 {
      FreshIsGood(run[0]);
    } else {
      EveryHistoryIsGood(run, turns, x - 1);
      assert Follows(run[x - 1], turns[x - 1], run[x]);
      StepKeepsGood(run[x - 1], turns[x - 1].thread, turns[x - 1].act);
    }
  }

  /** In every interleaving, whenever no thread is in the middle of its accounting, the usage is the fixed
      metadata plus the charges of the entries in the table and of the standalone ones, the occupancy is the
      number of entries in the table, and the standalone usage is the charges of the standalone ones. */
  lemma {:induction false} QuietCountersAreExact(run: seq<World>, turns: seq<Turn>, x: nat)
    requires IsHistory(run, turns) && x < |run|
    requires forall t :: 0 <= t < |run[x].jobs| ==> run[x].jobs[t] == Rest
    ensures Shape(run[x])
    ensures run[x].usage == run[x].fixedUsage + DetachedCharge(run[x].alone) +
      ClockAccounts.Charged(run[x].table.slots, run[x].charges, |run[x].charges|)
    ensures run[x].occupancy == Occupied(run[x].table.slots, |run[x].charges|)
    ensures run[x].standaloneUsage == DetachedCharge(run[x].alone)
  {
    EveryHistoryIsGood(run, turns, x);
    RestOwesNothing(run[x].jobs);
  }

  // ----- a strict limit

  /** The order is for a strict limit of `capacity`. */
  predicate IsStrict(o: Order, capacity: nat) {
    o.strict && o.capacity == capacity
  }

  predicate StrictTurn(turn: Turn, capacity: nat) {
    turn.act.Begin? ==> IsStrict(turn.act.order, capacity)
  }

  /** Every operation of the run is under the same strict limit. */
  predicate OneLimit(turns: seq<Turn>, capacity: nat) {
    forall y :: 0 <= y < |turns| ==> StrictTurn(turns[y], capacity)
  }

  /** A thread that only knows that limit, and has not reserved less than nothing. */
  predicate StrictJob(job: Job, capacity: nat) {
    match job
    case Announced(o, _) => IsStrict(o, capacity)
    case Loaded(o, _, oldUsage, _) => IsStrict(o, capacity) && oldUsage <= capacity
    case Evicting(o, _, tally) => IsStrict(o, capacity) && tally.have >= 0
    case Counting(o, _, tally) => IsStrict(o, capacity) && tally.have >= 0
    case Adjusting(o, _, tally) => IsStrict(o, capacity) && tally.have >= 0
    case Refused(o) => IsStrict(o, capacity)
    case Crowded(_) => false
    case Forced(_) => false
    case _ => true
  }

  ghost predicate Limited(w: World, capacity: nat) {
    match w
    case World(_, _, _, _, _, usage, _, _, jobs) =>
      usage <= capacity && forall t :: 0 <= t < |jobs| ==> StrictJob(jobs[t], capacity)
  }

  lemma AccountKeepsLimit(w: World, job: Job, capacity: nat)
    requires w.usage <= capacity && StrictJob(job, capacity)
    ensures var u := AccountStep(w, job);
      w.usage + u.usage <= capacity && StrictJob(u.job, capacity)
  {
  }

  lemma FreshIsLimited(w: World, capacity: nat)
    requires Fresh(w) && w.fixedUsage <= capacity
    ensures Limited(w, capacity)
  {
  }

  lemma StepKeepsLimit(w: World, turn: Turn, w': World, capacity: nat)
    requires Good(w) && Follows(w, turn, w') && Limited(w, capacity)
    requires StrictTurn(turn, capacity)
    ensures Limited(w', capacity)
  {
    var t := turn.thread;
    assert StrictJob(w.jobs[t], capacity) && JobOk(w.jobs[t], w.table.threads[t]);
    match turn.act
    case Account => AccountKeepsLimit(w, w.jobs[t], capacity);
    case _ =>
  }

  /** In every interleaving of operations under one strict limit the usage never exceeds it, not even between
      the steps of an operation. */
  lemma {:induction false} StrictLimitIsNeverExceeded(run: seq<World>, turns: seq<Turn>, capacity: nat, x: nat)
    requires IsHistory(run, turns) && x < |run| && run[0].fixedUsage <= capacity
    requires OneLimit(turns, capacity)
    ensures Limited(run[x], capacity)
    decreases x
  {
    if x == 0 {
      FreshIsLimited(run[0], capacity);
    } else {
      StrictLimitIsNeverExceeded(run, turns, capacity, x - 1);
      EveryHistoryIsGood(run, turns, x - 1);
      var w, turn, w' := run[x - 1], turns[x - 1], run[x];
      assert Good(w) && Limited(w, capacity);
      assert Follows(w, turn, w') && StrictTurn(turn, capacity);
      StepKeepsLimit(w, turn, w', capacity);
    }
  }

  // ----- no underflow

  /** The job's next step is a compare-exchange that succeeds and finds the usage above the capacity, which it then
      lowers to the capacity. */
  predicate LowersNext(usage: int, job: Job) {
    match job
    case Loaded(o, _, oldUsage, again) =>
      (again || oldUsage != o.capacity) && usage == oldUsage && usage > o.capacity
    case _ => false
  }

  /** The turn lowers the usage to a capacity that it is above. */
  predicate Lowers(w: World, turn: Turn)
    requires Shape(w) && turn.thread < |w.jobs|
  {
    && turn.act.Account?
    && (w.table.threads[turn.thread].Idle? || w.table.threads[turn.thread].EraseRollback?)
    && LowersNext(w.usage, w.jobs[turn.thread])
  }

  /** None of the first `n` turns does. */
  ghost predicate NeverLowers(run: seq<World>, turns: seq<Turn>, n: nat)
    requires IsHistory(run, turns) && n <= |turns|
  {
    forall x :: 0 <= x < n ==> Follows(run[x], turns[x], run[x + 1]) && !Lowers(run[x], turns[x])
  }

  /** What a thread has reserved before its eviction is settled is not negative. */
  predicate Solvent(job: Job) {
    match job
    case Evicting(_, _, tally) => tally.have >= 0
    case Counting(_, _, tally) => tally.have >= 0
    case Adjusting(_, _, tally) => tally.have >= 0
    case _ => true
  }

  ghost predicate NobodyOverdrawn(w: World) {
    forall t :: 0 <= t < |w.jobs| ==> Solvent(w.jobs[t])
  }

  lemma AccountIsSolvent(w: World, job: Job, th: Thread)
    requires Solvent(job) && JobOk(job, th)
    ensures Solvent(AccountStep(w, job).job) <==> !LowersNext(w.usage, job)
  {
  }

  /** A turn overdraws somebody exactly when it lowers the usage to a capacity that it is above. */
  lemma StepOverdrawsExactly(w: World, turn: Turn, w': World)
    requires Good(w) && Follows(w, turn, w') && NobodyOverdrawn(w)
    ensures NobodyOverdrawn(w') <==> !Lowers(w, turn)
  {
    var t := turn.thread;
    var job := w.jobs[t];
    assert Solvent(job) && JobOk(job, w.table.threads[t]);
    if turn.act.Account? && (w.table.threads[t].Idle? || w.table.threads[t].EraseRollback?) {
      AccountIsSolvent(w, job, w.table.threads[t]);
      assert w'.jobs[t] == AccountStep(w, job).job;
    }
  }

  lemma TurnOverdrawsExactly(run: seq<World>, turns: seq<Turn>, x: nat)
    requires IsHistory(run, turns) && x < |turns| && NobodyOverdrawn(run[x])
    ensures NobodyOverdrawn(run[x + 1]) <==> !Lowers(run[x], turns[x])
  {
    EveryHistoryIsGood(run, turns, x);
    StepOverdrawsExactly(run[x], turns[x], run[x + 1]);
  }

  lemma {:induction false} NobodyIsOverdrawn(run: seq<World>, turns: seq<Turn>, n: nat)
    requires IsHistory(run, turns) && n <= |turns| && NeverLowers(run, turns, n)
    ensures NobodyOverdrawn(run[n])
    decreases n
  {
    if n > 0 {
      NobodyIsOverdrawn(run, turns, n - 1);
      TurnOverdrawsExactly(run, turns, n - 1);
    }
  }

  /** Nobody is overdrawn in any of the first states exactly when no turn between them lowers the usage. */
  lemma {:induction false} OverdrawnExactly(run: seq<World>, turns: seq<Turn>, n: nat)
    requires IsHistory(run, turns) && n <= |turns|
    ensures (forall x :: 0 <= x <= n ==> NobodyOverdrawn(run[x])) <==> NeverLowers(run, turns, n)
  {
    if NeverLowers(run, turns, n) {
      forall x | 0 <= x <= n
        ensures NobodyOverdrawn(run[x])
      {
        NobodyIsOverdrawn(run, turns, x);
      }
    }
    if forall x :: 0 <= x <= n ==> NobodyOverdrawn(run[x]) {
      forall x | 0 <= x < n
        ensures Follows(run[x], turns[x], run[x + 1]) && !Lowers(run[x], turns[x])
      {
        assert NobodyOverdrawn(run[x]) && NobodyOverdrawn(run[x + 1]);
        TurnOverdrawsExactly(run, turns, x);
      }
    }
  }

  lemma {:induction false} OwedIsCovered(jobs: seq<Job>, t: nat)
    requires t < |jobs| && forall u :: 0 <= u < |jobs| ==> Solvent(jobs[u])
    ensures TotalOwed(jobs) >= Owed(jobs[t]) >= 0
  {
    var last := |jobs| - 1;
    if t < last {
      OwedIsCovered(jobs[..last], t);
    } else if last > 0 {
      OwedIsCovered(jobs[..last], 0);
    }
  }

  lemma {:induction false} CountIsCovered(jobs: seq<Job>, t: nat)
    requires t < |jobs|
    ensures TotalCount(jobs) >= OwedCount(jobs[t])
  {
    var last := |jobs| - 1;
    if t < last {
      CountIsCovered(jobs[..last], t);
    } else if last > 0 {
      CountIsCovered(jobs[..last], 0);
    }
  }

  /** In every interleaving, giving a place back never takes the occupancy below zero. */
  lemma {:induction false} OccupancyDoesNotUnderflow(run: seq<World>, turns: seq<Turn>, x: nat, t: nat)
    requires IsHistory(run, turns) && x < |run| && t < |run[x].jobs|
    ensures run[x].occupancy >= OwedCount(run[x].jobs[t])
  {
    EveryHistoryIsGood(run, turns, x);
    CountIsCovered(run[x].jobs, t);
  }

  /** Giving a charge back never takes the usage below zero, as long as no turn has lowered the usage to a capacity
      that it was above. */
  lemma {:induction false} UsageDoesNotUnderflow(run: seq<World>, turns: seq<Turn>, x: nat, t: nat)
    requires IsHistory(run, turns) && x < |run| && NeverLowers(run, turns, x) && t < |run[x].jobs|
    ensures run[x].usage >= Owed(run[x].jobs[t]) >= 0
  {
    EveryHistoryIsGood(run, turns, x);
    NobodyIsOverdrawn(run, turns, x);
    OwedIsCovered(run[x].jobs, t);
  }

  /** Under one strict limit no turn does. */
  lemma {:induction false} OneLimitNeverLowers(run: seq<World>, turns: seq<Turn>, capacity: nat)
    requires IsHistory(run, turns) && run[0].fixedUsage <= capacity
    requires OneLimit(turns, capacity)
    ensures NeverLowers(run, turns, |turns|)
  {
    forall x | 0 <= x < |turns|
      ensures Follows(run[x], turns[x], run[x + 1]) && !Lowers(run[x], turns[x])
    {
      StrictLimitIsNeverExceeded(run, turns, capacity, x);
      assert Follows(run[x], turns[x], run[x + 1]);
      assert StrictJob(run[x].jobs[turns[x].thread], capacity);
    }
  }

  // ----- what a thread by itself decides

  ghost function After(w: World, t: nat, act: Act): (w': World)
    requires Good(w) && t < |w.jobs|
    ensures Good(w') && |w'.jobs| == |w.jobs|
  {
    StepKeepsGood(w, t, act);
    Step(w, t, act)
  }

  /** A charge under a strict limit that fits, and finds room in the table, is charged at once. One that is larger
      than the capacity is refused. Otherwise what there is of the capacity is reserved, and the rest is to be
      evicted. */
  lemma StrictDecides(w: World, t: nat, o: Order)
    requires Good(w) && t < |w.jobs| && w.jobs[t].Rest? && w.table.threads[t].Idle? && o.countdown > 0 && o.strict
    ensures var crowded := !o.standalone && w.occupancy + 1 > w.limit;
      var announced := After(w, t, Begin(o));
      var loaded := After(announced, t, Account);
      && announced.occupancy == w.occupancy + (if o.standalone then 0 else 1)
      && (o.charge > o.capacity ==> loaded.jobs[t] == Refused(o) && loaded.usage == w.usage)
      && (o.charge <= o.capacity ==>
            var reserved := After(loaded, t, Account);
            if w.usage + o.charge <= o.capacity && !crowded then
              && reserved.usage == w.usage + o.charge
              && reserved.jobs[t] == if o.standalone then Detaching(o.charge) else Placing(o, false)
            else
              && reserved.usage == Least(o.capacity, w.usage + o.charge)
              && reserved.jobs[t].Evicting? && reserved.jobs[t].crowded == crowded
              && reserved.jobs[t].tally.need == w.usage + o.charge - reserved.usage
              && reserved.jobs[t].tally.freed == reserved.jobs[t].tally.count == 0)
  {
  }

  /** Once the eviction is over, a strict order is refused exactly if less went than was needed, or nothing did
      although the table needs room; it then leaves the usage without what it had reserved and without what went. */
  lemma StrictSettles(w: World, t: nat)
    requires Good(w) && t < |w.jobs| && w.jobs[t].Evicting? && w.jobs[t].order.strict && w.table.threads[t].Idle?
    ensures var o, crowded, tally := w.jobs[t].order, w.jobs[t].crowded, w.jobs[t].tally;
      var end := After(After(After(w, t, EndEviction), t, Account), t, Account);
      && end.occupancy == w.occupancy - tally.count
      && (end.jobs[t] == Refused(o) <==> tally.freed < tally.need || (crowded && tally.count == 0))
      && (end.jobs[t] == Refused(o) ==> end.usage == w.usage - tally.freed - tally.have)
      && (end.jobs[t] != Refused(o) ==>
            && end.usage == w.usage - (tally.freed - tally.need)
            && end.jobs[t] == if o.standalone then Detaching(o.charge) else Placing(o, false))
  {
    assert JobOk(w.jobs[t], w.table.threads[t]);
  }

  /** Without a strict limit a charge that fits, or is larger than the usage, is charged at once; for another,
      evictions come first, of the charge and a little more if the usage is above the capacity. */
  lemma NonStrictDecides(w: World, t: nat, o: Order)
    requires Good(w) && t < |w.jobs| && w.jobs[t].Rest? && w.table.threads[t].Idle? && o.countdown > 0 && !o.strict
    ensures var crowded := !o.standalone && w.occupancy + 1 > w.limit;
      var loaded := After(After(w, t, Begin(o)), t, Account);
      && loaded.usage == w.usage
      && if w.usage + o.charge <= o.capacity || o.charge > w.usage then
           if crowded then loaded.jobs[t] == Evicting(o, true, Tally(0, 0, 0, 0))
           else
             var charged := After(loaded, t, Account);
             && charged.usage == w.usage + o.charge
             && charged.jobs[t] == if o.standalone then Detaching(o.charge) else Placing(o, false)
         else
           && loaded.jobs[t].Evicting? && loaded.jobs[t].crowded == crowded
           && loaded.jobs[t].tally.need >= o.charge && (w.usage > o.capacity ==> loaded.jobs[t].tally.need > o.charge)
           && loaded.jobs[t].tally.need <= o.charge + Least(o.capacity / 1024, o.charge) + 1
  {
  }

  /** Afterwards it is charged whatever went, unless the table needs room and nothing did. */
  lemma NonStrictSettles(w: World, t: nat)
    requires Good(w) && t < |w.jobs| && w.jobs[t].Evicting? && !w.jobs[t].order.strict && w.table.threads[t].Idle?
    ensures var o, crowded, tally := w.jobs[t].order, w.jobs[t].crowded, w.jobs[t].tally;
      var counted := After(After(w, t, EndEviction), t, Account);
      if crowded && tally.count == 0 then counted.jobs[t] == Crowded(o) && counted.usage == w.usage
      else
        var end := After(counted, t, Account);
        && end.occupancy == w.occupancy - tally.count && end.usage == w.usage + o.charge - tally.freed
        && end.jobs[t] == if o.standalone then Detaching(o.charge) else Placing(o, false)
  {
    assert JobOk(w.jobs[t], w.table.threads[t]);
  }

  /** What becomes of an order that was not placed: its place is given back, and its charge too unless a standalone
      entry takes it over; a refused or unplaceable one leaves no trace but for an uncharged handle where that is
      allowed. */
  lemma UnplacedIsUndone(w: World, t: nat)
    requires Good(w) && t < |w.jobs| && w.table.threads[t].Idle?
    ensures w.jobs[t].Unplaced? ==>
      var o, next := w.jobs[t].order, After(w, t, Account);
      && next.occupancy == w.occupancy - 1
      && var end := After(next, t, Account);
         && end.jobs[t].Rest?
         && (if o.wantHandle then end.usage == w.usage && end.alone == w.alone + [Detached(o.charge, 1)]
             else end.usage == w.usage - o.charge && end.alone == w.alone)
    ensures w.jobs[t].Refused? ==>
      var o, next := w.jobs[t].order, After(w, t, Account);
      && next.usage == w.usage && next.occupancy == w.occupancy - (if o.standalone then 0 else 1)
      && next.jobs[t] == if o.standalone && o.allowUncharged then Detaching(0) else Rest
  {
  }

  /** Giving an entry back: its place, then its charge. */
  lemma ReclaimGivesBack(w: World, t: nat)
    requires Good(w) && t < |w.jobs| && w.table.threads[t].Idle? && w.jobs[t].Reclaiming?
    ensures var end := After(After(w, t, Account), t, Account);
      && end.jobs[t].Rest? && end.occupancy == w.occupancy - 1 && end.usage == w.usage - w.jobs[t].charge
  {
  }

  /** A thread that rests, or evicts for its order, moves the table as the protocol does; the counters wait. */
  lemma ProtocolMovesTheTable(w: World, t: nat, cmd: Command)
    requires Good(w) && t < |w.jobs| && w.table.threads[t].Idle?
    requires if w.jobs[t].Evicting? then cmd.DoEvict? else w.jobs[t].Rest? && !cmd.DoEvict? && !cmd.DoInsert?
    ensures var next := After(w, t, Protocol(cmd));
      && next.table == ClockProtocol.Apply(w.table, t, CommandStep(w.table, w.table.threads[t], cmd))
      && next.usage == w.usage && next.occupancy == w.occupancy && next.jobs == w.jobs
  {
    assert w.jobs[t := w.jobs[t]] == w.jobs;
  }

  /** An order that was charged is placed by one insert of its key, and the slot that shows it has its charge. */
  lemma PlacingInserts(w: World, t: nat)
    requires Good(w) && t < |w.jobs| && w.jobs[t].Placing?
    ensures var o, th := w.jobs[t].order, w.table.threads[t];
      && (!w.jobs[t].started && th.Idle? && o.countdown > 0 ==>
            var next := After(w, t, Protocol(DoInsert(o.key, o.countdown, o.wantHandle)));
            && next.table.threads[t] == Insert(o.key, o.countdown, o.wantHandle, 0, Claim)
            && next.jobs[t] == Placing(o, true))
      && (Publishes(th) ==>
            var s, next := Probe(w.table.bits, th.key, th.i), After(w, t, Protocol(DoEvict(0)));
            && next.jobs[t].Rest? && next.charges == w.charges[s := o.charge]
            && next.table.slots[s].meta.state.Visible? && next.table.slots[s].key == th.key)
  {
    assert JobOk(w.jobs[t], w.table.threads[t]);
    assert Knows(w.table.bits, w.table.slots, w.table.threads[t]);
  }

  /** A reference to a standalone entry, and its release; the last release frees it with its charge. */
  lemma StandaloneIsFreed(w: World, t: nat, id: nat)
    requires Good(w) && t < |w.jobs| && MayUse(w, t, id)
    ensures After(w, t, RefAlone(id)).alone == w.alone[id := Detached(w.alone[id].charge, w.alone[id].refs + 1)]
    ensures var d, next := w.alone[id], After(w, t, ReleaseAlone(id));
      && next.alone == w.alone[id := Detached(d.charge, d.refs - 1)]
      && (d.refs > 1 ==> next.jobs[t].Rest? && next.usage == w.usage)
      && (d.refs == 1 ==>
            var end := After(After(next, t, Account), t, Account);
            && end.jobs[t].Rest? && end.usage == w.usage - d.charge
            && end.standaloneUsage == w.standaloneUsage - d.charge)
  {
  }
}
