/** What installing and getting SuperVersions achieves: an install makes a new one current and ends without any cached
    pointer to the old one, whoever gets one afterwards gets that or a later one, and a pointer that is returned
    in time is there for the next use. */
module SuperVersionAnswers {
  import opened SuperVersions

  // ----- installing

  /** Installing makes a new SuperVersion current, which has one reference. Nobody holds it yet. */
  lemma InstallMakesCurrent(st: State)
    requires Inv(st) && st.installer.Resting?
    ensures var st' := Step(st, Install);
      && Inv(st') && st'.current == st.current + 1 && st'.refs == st.refs + [1] && st'.readers == st.readers
      && st'.installer == Scraping(st.current, 0, [])
  {
    StepKeepsInv(st, Install);
  }

  ghost function Execute(st: State, actions: seq<Action>): (st': State)
    requires Inv(st)
    ensures Inv(st')
    decreases |actions|
  {
    if actions == [] then st
    else
      StepKeepsInv(st, actions[0]);
      Execute(Step(st, actions[0]), actions[1..])
  }

  function InstallerToGo(st: State): int {
    match st.installer
    case Resting => 0
    case Scraping(_, next, taken) => 2 * (|st.readers| - next) + |taken| + 3
    case Dropping(_, taken) => |taken| + 2
  }

  /** The installer's next action. */
  function NextInstall(st: State): Action {
    match st.installer
    case Resting => Install
    case Scraping(_, _, _) => Scrape
    case Dropping(_, taken) => if taken == [] then DropWas else DropTaken
  }

  lemma InstallerGetsOn(st: State)
    requires Inv(st) && !st.installer.Resting?
    ensures var st' := Step(st, NextInstall(st));
      && Inv(st') && 0 <= InstallerToGo(st') < InstallerToGo(st)
      && st'.current == st.current && st'.pins == st.pins && |st'.readers| == |st.readers|
      && (forall t :: 0 <= t < |st.readers| ==> st'.readers[t].place == st.readers[t].place)
      && (st'.installer.Resting? || st'.installer.was == st.installer.was)
      && (forall t :: 0 <= t < |st.readers| ==>
            st'.readers[t].local == st.readers[t].local || st'.readers[t].local.Obsolete?)
      && (st.installer.Scraping? && st'.installer.Dropping? ==>
            st'.readers == st.readers && st.installer.next == |st.readers|)
      && (st.installer.Dropping? ==> st'.readers == st.readers && !st'.installer.Scraping?)
      && (st.installer.Scraping? && st'.installer.Scraping? ==>
            && st.installer.next < |st.readers| && st'.installer.next == st.installer.next + 1
            && st'.readers[st.installer.next].local.Obsolete?)
  {
    StepKeepsInv(st, NextInstall(st));
  }

  /** The threads that the scrape has passed, undisturbed, cache nothing. */
  predicate Scraped(st: State) {
    match st.installer
    case Scraping(_, next, _) => next <= |st.readers| && forall t :: 0 <= t < next ==> st.readers[t].local.Obsolete?
    case _ => forall t :: 0 <= t < |st.readers| ==> st.readers[t].local.Obsolete?
  }

  /** An install that nobody disturbs comes to its end: the new SuperVersion is still current, every thread's
      pointer is obsolete, and the reference of the column family to the old one is gone. */
  lemma {:induction false} InstallCompletes(st: State) returns (actions: seq<Action>)
    requires Inv(st) && !st.installer.Resting? && Scraped(st)
    ensures forall i :: 0 <= i < |actions| ==> actions[i].Scrape? || actions[i].DropTaken? || actions[i].DropWas?
    ensures var end, was := Execute(st, actions), st.installer.was;
      && end.installer.Resting? && end.current == st.current && |end.readers| == |st.readers|
      && (forall t :: 0 <= t < |end.readers| ==>
            end.readers[t].local.Obsolete? && end.readers[t].place == st.readers[t].place)
      && was < |end.refs| == |end.pins| == |end.cleaned| && end.refs[was] == Held(end.readers, was) + end.pins[was]
    decreases InstallerToGo(st)
  {
    var st' := Step(st, NextInstall(st));
    InstallerGetsOn(st);
    if st'.installer.Resting? {
      actions := [NextInstall(st)];
      assert actions[1..] == [];
      assert Execute(st, actions) == Execute(st', []) == st';
      assert CountInv(st', st.installer.was);
    } else {
      var rest := InstallCompletes(st');
      actions := [NextInstall(st)] + rest;
      assert actions[1..] == rest;
      assert Execute(st, actions) == Execute(st', rest);
    }
  }

  // ----- getting

  /** Whoever is idle while no install is under way gets the current SuperVersion: at once if it is cached, else
      with the mutex. */
  lemma GetIsServed(st: State, t: nat)
    requires Inv(st) && st.installer.Resting? && t < |st.readers| && st.readers[t].place.Idle?
    ensures var mid := Step(st, Get(t));
      if st.readers[t].local.Cached? then
        mid.readers[t] == Reader(InUse, Using(st.current, false)) && mid.refs == st.refs
      else
        && mid.readers[t] == Reader(InUse, Refill)
        && var end := Step(mid, Fill(t));
           && end.readers[t] == Reader(InUse, Using(st.current, false))
           && end.refs == st.refs[st.current := st.refs[st.current] + 1]
  {
    assert ReaderInv(st, t);
  }

  /** What is current, or was when the install under way began. */
  predicate AtLeast(st: State, v: nat) {
    v <= st.current && (!st.installer.Resting? ==> v <= st.installer.was)
  }

  lemma {:induction false} NeverGoesBack(run: seq<State>, actions: seq<Action>, x: nat, y: nat)
    requires IsRun(run, actions) && x <= y < |run| && run[x].installer.Resting?
    ensures AtLeast(run[y], run[x].current) && |run[y].readers| == |run[x].readers|
    decreases y
  {
    if x < y {
      NeverGoesBack(run, actions, x, y - 1);
      EveryRunKeepsInv(run, actions, y - 1);
      assert run[y] == Step(run[y - 1], actions[y - 1]);
    }
  }

  /** In every interleaving: a thread that starts to use a SuperVersion after an install has ended uses that one or
      one installed later. */
  lemma {:induction false} GetsWhatIsInstalled(run: seq<State>, actions: seq<Action>, x: nat, y: nat, t: nat)
    requires IsRun(run, actions) && x <= y < |actions| && run[x].installer.Resting? && t < |run[y].readers|
    requires !run[y].readers[t].place.Using? && t < |run[y + 1].readers| && run[y + 1].readers[t].place.Using?
    ensures run[y + 1].readers[t].place.sv >= run[x].current
  {
    NeverGoesBack(run, actions, x, y);
    EveryRunKeepsInv(run, actions, y);
    assert run[y + 1] == Step(run[y], actions[y]);
    assert ReaderInv(run[y], t);
  }

  /** A caller that wants a reference of its own gets one more. */
  lemma ReferenceIsAdded(st: State, t: nat)
    requires Inv(st) && t < |st.readers| && st.readers[t].place.Using? && !st.readers[t].place.extra
    ensures var v, end := st.readers[t].place.sv, Step(st, AddRef(t));
      && v < |st.refs| && end.refs == st.refs[v := st.refs[v] + 1]
      && end.readers[t] == st.readers[t].(place := Using(v, true))
  {
    assert ReaderInv(st, t);
  }

  // ----- returning

  /** The thread uses that SuperVersion, and its pointer has not been scraped since. */
  predicate Uses(st: State, t: nat, v: nat) {
    t < |st.readers| && st.readers[t].local.InUse? && st.readers[t].place.Using? && st.readers[t].place.sv == v
  }

  /** As long as no install begins, a pointer in use stays the thread's own. */
  lemma StaysInUse(st: State, a: Action, t: nat, v: nat)
    requires Inv(st) && Uses(st, t, v) && st.installer.Resting? && Step(st, a).installer.Resting? && a != Return(t)
    ensures Uses(Step(st, a), t, v)
  {
  }

  lemma {:induction false} InUseThroughout(
    run: seq<State>, actions: seq<Action>, first: nat, last: nat, t: nat, v: nat)
    requires IsRun(run, actions) && first <= last < |run| && Uses(run[first], t, v)
    requires forall x :: first <= x <= last ==> run[x].installer.Resting?
    requires forall x :: first <= x < last ==> actions[x] != Return(t)
    ensures Uses(run[last], t, v)
    decreases last
  {
    if first < last {
      InUseThroughout(run, actions, first, last - 1, t, v);
      EveryRunKeepsInv(run, actions, last - 1);
      var st, a := run[last - 1], actions[last - 1];
      assert run[last] == Step(st, a) && Inv(st);
      assert st.installer.Resting? && run[last].installer.Resting? && a != Return(t);
      StaysInUse(st, a, t, v);
    }
  }

  /** In every interleaving: a SuperVersion that is returned with no install since it was got is cached, so that the
      next use needs no mutex; a caller that asked for a reference of its own has it. */
  lemma ReturnedIsCached(run: seq<State>, actions: seq<Action>, first: nat, last: nat, t: nat, v: nat)
    requires IsRun(run, actions) && first <= last < |actions| && Uses(run[first], t, v)
    requires forall x :: first <= x <= last ==> run[x].installer.Resting?
    requires (forall x :: first <= x < last ==> actions[x] != Return(t)) && actions[last] == Return(t)
    ensures Uses(run[last], t, v) && v < |run[last].pins|
    ensures t < |run[last + 1].readers| && run[last + 1].readers[t] == Reader(Cached(v), Idle)
    ensures run[last + 1].refs == run[last].refs
    ensures run[last + 1].pins ==
      run[last].pins[v := run[last].pins[v] + if run[last].readers[t].place.extra then 1 else 0]
  {
    InUseThroughout(run, actions, first, last, t, v);
    EveryRunKeepsInv(run, actions, last);
    assert ReaderInv(run[last], t);
    assert run[last + 1] == Step(run[last], actions[last]);
  }

  /** A return after a scrape gives the reference up. Whoever gives up the last one cleans up once the mutex is
      free; a caller that asked for a reference of its own keeps it. */
  lemma DropIsDone(st: State, t: nat)
    requires Inv(st) && t < |st.readers| && st.readers[t].place.Using? && !st.readers[t].local.InUse?
    ensures var v, extra := st.readers[t].place.sv, st.readers[t].place.extra;
      var end := Step(Step(st, Return(t)), Unref(t));
      && v < |st.refs| && end.refs == st.refs[v := st.refs[v] - 1]
      && end.pins == st.pins[v := st.pins[v] + if extra then 1 else 0]
      && end.readers[t].place == (if st.refs[v] == 1 then Clean(v) else Idle)
      && (st.refs[v] == 1 && st.installer.Resting? ==>
            && Step(end, Cleanup(t)).readers[t].place.Idle?
            && Step(end, Cleanup(t)).cleaned == st.cleaned[v := st.cleaned[v] + 1])
  {
    assert ReaderInv(st, t);
  }

  /** Giving up a reference of one's own, and a thread that ends with a cached pointer. */
  lemma ReferencesGoBack(st: State, t: nat, v: nat)
    requires Inv(st) && t < |st.readers| && st.readers[t].place.Idle? && v < |st.refs|
    ensures st.pins[v] > 0 ==>
      var end := Step(st, Unpin(t, v));
      && end.refs == st.refs[v := st.refs[v] - 1] && end.pins == st.pins[v := st.pins[v] - 1]
      && end.readers[t].place == if st.refs[v] == 1 then Clean(v) else Idle
    ensures st.readers[t].local == Cached(v) ==>
      var end := Step(st, Exit(t));
      end.refs == st.refs[v := st.refs[v] - 1] && end.readers[t] == Reader(Obsolete, Idle)
  {
    assert ReaderInv(st, t);
  }
}
