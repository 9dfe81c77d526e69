/** How threads share the current SuperVersion of a column family: per-thread cached pointers that
    are swapped, compared-and-swapped and scraped, over reference counts.

    Each step is one atomic operation. SuperVersions are numbered in the order they are installed. */
module SuperVersions {

  /** A thread-local pointer: kSVObsolete, kSVInUse or a SuperVersion. */
  datatype Local = Obsolete | InUse | Cached(sv: nat)

  /** Where a reader thread is. `extra` marks GetReferencedSuperVersion, which holds a second
      reference while it puts the first one back. */
  datatype Place =
    | Idle
    | Refill
    | Using(sv: nat, extra: bool)
    | Drop(sv: nat, extra: bool)
    | Clean(sv: nat)

  datatype Reader = Reader(local: Local, place: Place)

  /** InstallSuperVersion under the DB mutex: scraping the threads in order, then dropping what was
      scraped, then dropping the reference of the SuperVersion that was current. */
  datatype Installer =
    | Resting
    | Scraping(was: nat, next: nat, taken: seq<nat>)
    | Dropping(was: nat, taken: seq<nat>)

  /** `pins[v]` counts references handed to callers; `cleaned[v]` counts calls of Cleanup. */
  datatype State = State(
    refs: seq<int>,
    pins: seq<int>,
    cleaned: seq<int>,
    current: nat,
    readers: seq<Reader>,
    installer: Installer)

  datatype Action =
    | Get(t: nat)
    | Fill(t: nat)
    | AddRef(t: nat)
    | Return(t: nat)
    | Unref(t: nat)
    | Cleanup(t: nat)
    | Unpin(t: nat, sv: nat)
    | Exit(t: nat)
    | Install
    | Scrape
    | DropTaken
    | DropWas

  function Add(s: seq<int>, v: nat, d: int): seq<int> {
    if v < |s| then s[v := s[v] + d] else s
  }

  function SetReader(st: State, t: nat, r: Reader): State
    requires t < |st.readers|
  {
    st.(readers := st.readers[t := r])
  }

  /** Give up one reference; the thread that gives up the last one has to clean up. */
  function DropRef(st: State, t: nat, v: nat): State
    requires t < |st.readers| && v < |st.refs|
  {
    var last := st.refs[v] == 1;
    SetReader(st.(refs := Add(st.refs, v, -1)), t, st.readers[t].(place := if last then Clean(v) else Idle))
  }

  /** A reader's step, or the same state when the step is not enabled. The DB mutex is free exactly
      when no install is under way. */
  function ReaderStep(st: State, t: nat, a: Action): State
    requires t < |st.readers| && |st.refs| == |st.pins| == |st.cleaned| && st.current < |st.refs|
  {
    var r := st.readers[t];
    match r.place
    case Idle =>
      if a.Get? then
        SetReader(st, t, Reader(InUse, if r.local.Cached? then Using(r.local.sv, false) else Refill))
      else if a.Unpin? && a.sv < |st.pins| && st.pins[a.sv] > 0 then
        DropRef(st.(pins := Add(st.pins, a.sv, -1)), t, a.sv)
      else if a.Exit? && r.local.Cached? then
        SetReader(st.(refs := Add(st.refs, r.local.sv, -1)), t, r.(local := Obsolete))
      else st
    case Refill =>
      if a.Fill? && st.installer.Resting? then
        SetReader(st.(refs := Add(st.refs, st.current, 1)), t, r.(place := Using(st.current, false)))
      else st
    case Using(v, extra) =>
      if a.AddRef? && !extra then
        SetReader(st.(refs := Add(st.refs, v, 1)), t, r.(place := Using(v, true)))
      else if a.Return? then
        if r.local.InUse? then
          SetReader(st.(pins := Add(st.pins, v, if extra then 1 else 0)), t, Reader(Cached(v), Idle))
        else SetReader(st, t, r.(place := Drop(v, extra)))
      else st
    case Drop(v, extra) =>
      if a.Unref? && v < |st.refs| then DropRef(st.(pins := Add(st.pins, v, if extra then 1 else 0)), t, v) else st
    case Clean(v) =>
      if a.Cleanup? && st.installer.Resting? then
        SetReader(st.(cleaned := Add(st.cleaned, v, 1)), t, r.(place := Idle))
      else st
  }

  function InstallStep(st: State, a: Action): State
    requires |st.refs| == |st.pins| == |st.cleaned| && st.current < |st.refs|
  {
    match st.installer
    case Resting =>
      if a.Install? then
        st.(refs := st.refs + [1], pins := st.pins + [0], cleaned := st.cleaned + [0],
            current := |st.refs|, installer := Scraping(st.current, 0, []))
      else st
    case Scraping(was, next, taken) =>
      if !a.Scrape? then st
      else if next < |st.readers| then
        var r := st.readers[next];
        SetReader(st, next, r.(local := Obsolete))
          .(installer := Scraping(was, next + 1, if r.local.Cached? then taken + [r.local.sv] else taken))
      else st.(installer := Dropping(was, taken))
    case Dropping(was, taken) =>
      if a.DropTaken? && taken != [] then
        st.(refs := Add(st.refs, taken[0], -1), installer := Dropping(was, taken[1..]))
      else if a.DropWas? && taken == [] && was < |st.refs| then
        st.(refs := Add(st.refs, was, -1),
            cleaned := if st.refs[was] == 1 then Add(st.cleaned, was, 1) else st.cleaned,
            installer := Resting)
      else st
  }

  function Step(st: State, a: Action): State
    requires |st.refs| == |st.pins| == |st.cleaned| && st.current < |st.refs|
  {
    if a.Install? || a.Scrape? || a.DropTaken? || a.DropWas? then InstallStep(st, a)
    else if a.t < |st.readers| then ReaderStep(st, a.t, a)
    else st
  }

  // ----- who holds what

  /** The references that a reader accounts for: its cached pointer and the ones it is using. */
  function Holds(r: Reader, v: nat): nat {
    (if r.local == Cached(v) then 1 else 0)
    + match r.place
      case Using(w, extra) => if w == v then (if extra then 2 else 1) else 0
      case Drop(w, extra) => if w == v then (if extra then 2 else 1) else 0
      case _ => 0
  }

  function Held(rs: seq<Reader>, v: nat): nat {
    if rs == [] then 0 else Held(rs[..|rs| - 1], v) + Holds(rs[|rs| - 1], v)
  }

  /** The readers about to call Cleanup on `v`. */
  function Cleaning(rs: seq<Reader>, v: nat): nat {
    if rs == [] then 0
    else Cleaning(rs[..|rs| - 1], v) + if rs[|rs| - 1].place == Clean(v) then 1 else 0
  }

  function Occurrences(s: seq<nat>, v: nat): nat {
    if s == [] then 0 else (if s[0] == v then 1 else 0) + Occurrences(s[1..], v)
  }

  /** The references of the column family itself: the installed one, and during an install the one
      of the SuperVersion being replaced together with the scraped ones. */
  function Installed(st: State, v: nat): nat {
    (if v == st.current then 1 else 0)
    + match st.installer
      case Resting => 0
      case Scraping(was, _, taken) => (if v == was then 1 else 0) + Occurrences(taken, v)
      case Dropping(was, taken) => (if v == was then 1 else 0) + Occurrences(taken, v)
  }

  /** A pointer that the thread at position `t` may still put back, or has cached: the current
      SuperVersion, or during an install the one being replaced until the scrape reaches the thread. */
  predicate Fresh(st: State, t: nat, v: nat) {
    match st.installer
    case Resting => v == st.current
    case Scraping(was, next, _) => v == was && next <= t
    case Dropping(_, _) => false
  }

  predicate ReaderInv(st: State, t: nat)
    requires t < |st.readers|
  {
    var r := st.readers[t];
    && (r.local.Cached? ==> (r.place.Idle? || r.place.Clean?) && Fresh(st, t, r.local.sv))
    && (r.local.InUse? ==> r.place.Refill? || (r.place.Using? && Fresh(st, t, r.place.sv)))
    && (r.place.Using? || r.place.Drop? || r.place.Clean? ==> r.place.sv < |st.refs|)
  }

  ghost predicate Inv(st: State) {
    && |st.refs| == |st.pins| == |st.cleaned| == st.current + 1
    && (st.installer.Scraping? ==> st.installer.was < st.current && st.installer.next <= |st.readers|)
    && (st.installer.Dropping? ==> st.installer.was < st.current)
    && (!st.installer.Resting? ==>
          forall i :: 0 <= i < |st.installer.taken| ==> st.installer.taken[i] == st.installer.was)
    && (forall t :: 0 <= t < |st.readers| ==> ReaderInv(st, t))
    && (forall v :: 0 <= v < |st.refs| ==> CountInv(st, v))
  }

  ghost predicate CountInv(st: State, v: nat)
    requires v < |st.refs| == |st.pins| == |st.cleaned|
  {
    && st.pins[v] >= 0
    && st.refs[v] == Installed(st, v) + Held(st.readers, v) + st.pins[v]
    && st.cleaned[v] + Cleaning(st.readers, v) == if st.refs[v] == 0 then 1 else 0
  }

  lemma {:induction false} HeldAfterUpdate(rs: seq<Reader>, t: nat, r: Reader, v: nat)
    requires t < |rs|
    ensures Held(rs[t := r], v) + Holds(rs[t], v) == Held(rs, v) + Holds(r, v)
    ensures Cleaning(rs[t := r], v) + (if rs[t].place == Clean(v) then 1 else 0) ==
            Cleaning(rs, v) + (if r.place == Clean(v) then 1 else 0)
  {
    var last := |rs| - 1;
    if t == last {
      assert rs[t := r][..last] == rs[..last];
    } else {
      assert rs[t := r][..last] == rs[..last][t := r];
      HeldAfterUpdate(rs[..last], t, r, v);
    }
  }

  lemma {:induction false} HeldCovers(rs: seq<Reader>, t: nat, v: nat)
    requires t < |rs|
    ensures Held(rs, v) >= Holds(rs[t], v)
    ensures Cleaning(rs, v) >= if rs[t].place == Clean(v) then 1 else 0
  {
    if t < |rs| - 1 {
      HeldCovers(rs[..|rs| - 1], t, v);
    }
  }

  lemma {:induction false} OccurrencesAppend(s: seq<nat>, w: nat, v: nat)
    ensures Occurrences(s + [w], v) == Occurrences(s, v) + if w == v then 1 else 0
  {
    if s != [] {
      assert (s + [w])[1..] == s[1..] + [w];
      OccurrencesAppend(s[1..], w, v);
    }
  }

  /** No thread mentions a SuperVersion that is not installed yet. */
  lemma {:induction false} NothingHeldYet(rs: seq<Reader>, v: nat)
    requires forall t :: 0 <= t < |rs| ==>
      && (rs[t].local.Cached? ==> rs[t].local.sv < v)
      && (rs[t].place.Using? || rs[t].place.Drop? || rs[t].place.Clean? ==> rs[t].place.sv < v)
    ensures Held(rs, v) == 0 && Cleaning(rs, v) == 0
  {
    if rs != [] {
      NothingHeldYet(rs[..|rs| - 1], v);
    }
  }

  /** A reader's step only has to be right about its own reader, for each SuperVersion. */
  lemma {:induction false} IdleStepKeepsCounts(st: State, t: nat, a: Action, v: nat)
    requires Inv(st) && t < |st.readers| && v < |st.refs| && st.readers[t].place.Idle?
    ensures var st' := ReaderStep(st, t, a);
      |st'.refs| == |st'.pins| == |st'.cleaned| == |st.refs| && CountInv(st', v)
  {
    var st' := ReaderStep(st, t, a);
    assert ReaderInv(st, t);
    assert CountInv(st, v);
    HeldAfterUpdate(st.readers, t, st'.readers[t], v);
    HeldCovers(st.readers, t, v);
  }

  lemma {:induction false} BusyStepKeepsCounts(st: State, t: nat, a: Action, v: nat)
    requires Inv(st) && t < |st.readers| && v < |st.refs| && !st.readers[t].place.Idle?
    ensures var st' := ReaderStep(st, t, a);
      |st'.refs| == |st'.pins| == |st'.cleaned| == |st.refs| && CountInv(st', v)
  {
    var st' := ReaderStep(st, t, a);
    assert ReaderInv(st, t);
    assert CountInv(st, v);
    HeldAfterUpdate(st.readers, t, st'.readers[t], v);
    HeldCovers(st.readers, t, v);
  }

  lemma {:induction false} ReaderStepKeepsInv(st: State, t: nat, a: Action)
    requires Inv(st) && t < |st.readers|
    ensures Inv(ReaderStep(st, t, a))
  {
    var st' := ReaderStep(st, t, a);
    assert ReaderInv(st, t);
    forall v | 0 <= v < |st.refs|
      ensures CountInv(st', v)
    {
      if st.readers[t].place.Idle? {
        IdleStepKeepsCounts(st, t, a, v);
      } else {
        BusyStepKeepsCounts(st, t, a, v);
      }
    }
    forall u | 0 <= u < |st.readers|
      ensures ReaderInv(st', u)
    {
      assert ReaderInv(st, u);
    }
  }

  lemma {:induction false} InstallBegins(st: State)
    requires Inv(st) && st.installer.Resting?
    ensures Inv(InstallStep(st, Install))
  {
    var st' := InstallStep(st, Install);
    forall u | 0 <= u < |st.readers|
      ensures ReaderInv(st', u)
    {
      assert ReaderInv(st, u);
    }
    forall t | 0 <= t < |st.readers|
      ensures st.readers[t].local.Cached? ==> st.readers[t].local.sv < |st.refs|
      ensures var p := st.readers[t].place; p.Using? || p.Drop? || p.Clean? ==> p.sv < |st.refs|
    {
      assert ReaderInv(st, t);
    }
    NothingHeldYet(st.readers, |st.refs|);
    forall v | 0 <= v < |st'.refs|
      ensures CountInv(st', v)
    {
      if v < |st.refs| {
        assert CountInv(st, v);
      }
    }
  }

  lemma {:induction false} InstallKeepsReader(st: State, a: Action, u: nat)
    requires Inv(st) && !st.installer.Resting? && u < |st.readers|
    ensures u < |InstallStep(st, a).readers| && ReaderInv(InstallStep(st, a), u)
  {
    assert ReaderInv(st, u);
  }

  lemma {:induction false} InstallKeepsCount(st: State, a: Action, v: nat)
    requires Inv(st) && !st.installer.Resting? && v < |st.refs|
    ensures var st' := InstallStep(st, a);
      v < |st'.refs| == |st'.pins| == |st'.cleaned| && CountInv(st', v)
  {
    assert CountInv(st, v);
    if st.installer.Scraping? && a.Scrape? && st.installer.next < |st.readers| {
      var next := st.installer.next;
      assert ReaderInv(st, next);
      HeldAfterUpdate(st.readers, next, InstallStep(st, a).readers[next], v);
      if st.readers[next].local.Cached? {
        OccurrencesAppend(st.installer.taken, st.readers[next].local.sv, v);
      }
    }
  }

  lemma {:induction false} InstallGoesOn(st: State, a: Action)
    requires Inv(st) && !st.installer.Resting?
    ensures Inv(InstallStep(st, a))
  {
    var st' := InstallStep(st, a);
    if st.installer.Scraping? && st.installer.next < |st.readers| {
      assert ReaderInv(st, st.installer.next);
    }
    forall u | 0 <= u < |st.readers|
      ensures ReaderInv(st', u)
    {
      InstallKeepsReader(st, a, u);
    }
    forall v | 0 <= v < |st.refs|
      ensures CountInv(st', v)
    {
      InstallKeepsCount(st, a, v);
    }
  }

  lemma StepKeepsInv(st: State, a: Action)
    requires Inv(st)
    ensures Inv(Step(st, a))
  {
    if a.Install? || a.Scrape? || a.DropTaken? || a.DropWas? {
      if !st.installer.Resting? {
        InstallGoesOn(st, a);
      } else if a.Install? {
        InstallBegins(st);
      }
    } else if a.t < |st.readers| {
      ReaderStepKeepsInv(st, a.t, a);
    }
  }

  // ----- runs

  ghost predicate Start(st: State) {
    && st.refs == [1] && st.pins == [0] && st.cleaned == [0] && st.current == 0
    && st.installer.Resting?
    && forall t :: 0 <= t < |st.readers| ==> st.readers[t] == Reader(Obsolete, Idle)
  }

  ghost predicate IsRun(run: seq<State>, actions: seq<Action>) {
    && |run| == |actions| + 1
    && Start(run[0])
    && forall x :: 0 <= x < |actions| ==>
      && |run[x].refs| == |run[x].pins| == |run[x].cleaned| && run[x].current < |run[x].refs|
      && run[x + 1] == Step(run[x], actions[x])
  }

  lemma {:induction false} StartHoldsNothing(rs: seq<Reader>, v: nat)
    requires forall t :: 0 <= t < |rs| ==> rs[t] == Reader(Obsolete, Idle)
    ensures Held(rs, v) == 0 && Cleaning(rs, v) == 0
  {
    if rs != [] {
      StartHoldsNothing(rs[..|rs| - 1], v);
    }
  }

  lemma {:induction false} EveryRunKeepsInv(run: seq<State>, actions: seq<Action>, x: nat)
    requires IsRun(run, actions) && x < |run|
    ensures Inv(run[x])
    decreases x
  {
    if x == 0 {
      StartHoldsNothing(run[0].readers, 0);
    } else {
      EveryRunKeepsInv(run, actions, x - 1);
      assert run[x] == Step(run[x - 1], actions[x - 1]);
      StepKeepsInv(run[x - 1], actions[x - 1]);
    }
  }

  /** In every state of every run, a count is the installed reference plus the cached pointers, the
      references in use and the ones handed out. */
  lemma {:induction false} RefsCountHolders(run: seq<State>, actions: seq<Action>, x: nat, v: nat)
    requires IsRun(run, actions) && x < |run| && v < |run[x].refs|
    ensures |run[x].pins| == |run[x].refs|
    ensures run[x].refs[v] == Installed(run[x], v) + Held(run[x].readers, v) + run[x].pins[v]
  {
    EveryRunKeepsInv(run, actions, x);
    assert CountInv(run[x], v);
  }

  /** Outside an install, a thread caches only the current SuperVersion, and a thread whose pointer
      has not been scraped is using the current one. */
  lemma {:induction false} CachedIsCurrent(run: seq<State>, actions: seq<Action>, x: nat, t: nat)
    requires IsRun(run, actions) && x < |run| && t < |run[x].readers| && run[x].installer.Resting?
    ensures var r := run[x].readers[t];
      && (r.local.Cached? ==> r.local.sv == run[x].current)
      && (r.local.InUse? && r.place.Using? ==> r.place.sv == run[x].current)
  {
    EveryRunKeepsInv(run, actions, x);
    assert ReaderInv(run[x], t);
  }

  /** Cleanup happens at most once, only when nobody can reach the SuperVersion any more, and never
      to one that a thread is using, has cached or has handed out. */
  lemma {:induction false} CleanedOnceAndUnheld(run: seq<State>, actions: seq<Action>, x: nat, v: nat)
    requires IsRun(run, actions) && x < |run| && v < |run[x].refs|
    ensures |run[x].cleaned| == |run[x].pins| == |run[x].refs| && 0 <= run[x].cleaned[v] <= 1
    ensures run[x].cleaned[v] == 1 ==>
      && run[x].refs[v] == 0 && run[x].pins[v] == 0 && v != run[x].current
      && forall t :: 0 <= t < |run[x].readers| ==> Holds(run[x].readers[t], v) == 0
    decreases x
  {
    EveryRunKeepsInv(run, actions, x);
    var st := run[x];
    assert CountInv(st, v);
    CleanedNeverFalls(run, actions, x, v);
    forall t | 0 <= t < |st.readers|
      ensures Holds(st.readers[t], v) <= Held(st.readers, v)
    {
      HeldCovers(st.readers, t, v);
    }
  }

  lemma {:induction false} CleanedNeverFalls(run: seq<State>, actions: seq<Action>, x: nat, v: nat)
    requires IsRun(run, actions) && x < |run| && v < |run[x].cleaned|
    ensures run[x].cleaned[v] >= 0
    decreases x
  {
    if x > 0 {
      var st := run[x - 1];
      EveryRunKeepsInv(run, actions, x - 1);
      assert run[x] == Step(st, actions[x - 1]);
      if v < |st.cleaned| {
        CleanedNeverFalls(run, actions, x - 1, v);
      }
    }
  }

  /** When the last reference goes, exactly one thread is left to clean up, or it has been done. */
  lemma {:induction false} LastReferenceIsCleaned(run: seq<State>, actions: seq<Action>, x: nat, v: nat)
    requires IsRun(run, actions) && x < |run| && v < |run[x].refs|
    ensures |run[x].cleaned| == |run[x].refs|
    ensures run[x].refs[v] == 0 <==> run[x].cleaned[v] + Cleaning(run[x].readers, v) == 1
    ensures run[x].refs[v] != 0 ==> run[x].cleaned[v] + Cleaning(run[x].readers, v) == 0
  {
    EveryRunKeepsInv(run, actions, x);
    assert CountInv(run[x], v);
  }

  /** Dropping a scraped pointer, the pointer of an exiting thread, or the spare reference of
      GetReferencedSuperVersion never drops the last reference. */
  lemma {:induction false} NeverTheLast(run: seq<State>, actions: seq<Action>, x: nat)
    requires IsRun(run, actions) && x < |run|
    ensures run[x].installer.Dropping? && run[x].installer.taken != [] ==>
      run[x].installer.taken[0] < |run[x].refs| && run[x].refs[run[x].installer.taken[0]] > 1
    ensures forall t :: 0 <= t < |run[x].readers| && run[x].readers[t].local.Cached? ==>
      run[x].readers[t].local.sv < |run[x].refs| && run[x].refs[run[x].readers[t].local.sv] > 1
    ensures forall t :: 0 <= t < |run[x].readers| && run[x].readers[t].place.Drop? && run[x].readers[t].place.extra ==>
      run[x].readers[t].place.sv < |run[x].refs| && run[x].refs[run[x].readers[t].place.sv] > 1
  {
    EveryRunKeepsInv(run, actions, x);
    var st := run[x];
    if st.installer.Dropping? {
      assert CountInv(st, st.installer.was);
    }
    forall t | 0 <= t < |st.readers| && st.readers[t].local.Cached?
      ensures st.readers[t].local.sv < |st.refs| && st.refs[st.readers[t].local.sv] > 1
    {
      assert ReaderInv(st, t) && CountInv(st, st.readers[t].local.sv);
      HeldCovers(st.readers, t, st.readers[t].local.sv);
    }
    forall t | 0 <= t < |st.readers| && st.readers[t].place.Drop? && st.readers[t].place.extra
      ensures st.readers[t].place.sv < |st.refs| && st.refs[st.readers[t].place.sv] > 1
    {
      assert ReaderInv(st, t) && CountInv(st, st.readers[t].place.sv);
      HeldCovers(st.readers, t, st.readers[t].place.sv);
    }
  }
}
