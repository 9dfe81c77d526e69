/** Whole operations of the slot protocol, from the command to the end, by a thread that nobody disturbs: they start
    in any state that the other threads may have left the table in. */
module ClockAlone {
  import opened Arithmetic
  import opened ProbeSequence
  import opened ClockProtocol
  import opened ClockSafety
  import opened ClockAnswers

  /** An entry of the key is visible. */
  ghost predicate ShownIn(st: State, key: HashedKey) {
    exists e: nat :: ShowsKey(st, key, e)
  }

  lemma OneStep(st: State, t: nat)
    requires Inv(st) && t < |st.threads|
    ensures Next(st, Choice(t, DoEvict(0)), After(st, t, DoEvict(0)))
  {
  }

  // ----- lookup

  /** What a lookup at work knows when nobody disturbs it: it reads the key of visible entries only, and it has not
      gone past an entry of its key. */
  ghost predicate LooksUp(st: State, t: nat)
    requires Shaped(st) && t < |st.threads|
  {
    var th := st.threads[t];
    && th.Lookup? && th.i < Pow2(st.bits)
    && (th.lookupAt.Match? ==> st.slots[Probe(st.bits, th.key, th.i)].meta.state.Visible?)
    && forall e: nat :: ShowsKey(st, th.key, e) ==> e < Pow2(st.bits) && OnTrack(st.bits, th, th.key, e)
  }

  lemma LooksOn(st: State, t: nat)
    requires Inv(st) && t < |st.threads| && LooksUp(st, t)
    ensures var key, next := st.threads[t].key, After(st, t, DoEvict(0));
      && (forall e: nat :: ShowsKey(next, key, e) <==> ShowsKey(st, key, e))
      && if next.threads[t].Lookup? then LooksUp(next, t) && next.threads[t].key == key
         else next.threads[t] == Idle(if ShownIn(st, key) then Found(key) else Missing(key))
  {
    var th, next := st.threads[t], After(st, t, DoEvict(0));
    OneStep(st, t);
    forall e: nat | ShowsKey(st, th.key, e)
      ensures OnTrack(st.bits, next.threads[t], th.key, e)
    {
      LookupStaysOnTrack(st, Choice(t, DoEvict(0)), next, t, th.key, e);
    }
    FoundHasItsKey(st, t);
    if next.threads[t].Idle? && next.threads[t].last.Found? {
      assert ShowsKey(st, th.key, Probe(st.bits, th.key, th.i));
    }
  }

  lemma {:induction false} LookupFinishes(st: State, t: nat) returns (n: nat)
    requires Inv(st) && t < |st.threads| && LooksUp(st, t)
    ensures var key := st.threads[t].key;
      Alone(st, t, n).threads[t] == Idle(if ShownIn(st, key) then Found(key) else Missing(key))
    decreases ToGo(st.bits, st.threads[t])
  {
    var next := After(st, t, DoEvict(0));
    OwnStepCounts(st, t, DoEvict(0));
    LooksOn(st, t);
    if next.threads[t].Lookup? {
      n := LookupFinishes(next, t);
      assert ShownIn(next, st.threads[t].key) == ShownIn(st, st.threads[t].key);
      n := n + 1;
    } else {
      n := 1;
    }
  }

  /** By itself a lookup finds its key exactly if an entry of it is visible. */
  lemma LookupAlone(st: State, t: nat, key: HashedKey) returns (n: nat)
    requires Inv(st) && t < |st.threads| && st.threads[t].Idle?
    ensures Alone(After(st, t, DoLookup(key)), t, n).threads[t] ==
      Idle(if ShownIn(st, key) then Found(key) else Missing(key))
  {
    var begun := After(st, t, DoLookup(key));
    assert begun.slots == st.slots;
    assert forall e: nat :: ShowsKey(begun, key, e) <==> ShowsKey(st, key, e);
    n := LookupFinishes(begun, t);
  }

  // ----- erase

  /** What an erase at work knows when nobody disturbs it: the word is as it last saw it, and it has not gone past a
      visible entry of its key. */
  ghost predicate Erases(st: State, t: nat)
    requires Shaped(st) && t < |st.threads|
  {
    var th := st.threads[t];
    && (th.Erase? || th.EraseRollback?) && th.i < Pow2(st.bits)
    && (th.Erase? && th.eraseAt.Take? ==> st.slots[Probe(st.bits, th.key, th.i)].meta == th.eraseAt.copy)
    && forall e: nat :: ShowsKey(st, th.key, e) ==> e < Pow2(st.bits) && MayErase(st.bits, th, th.key, e)
  }

  lemma ErasesOn(st: State, t: nat)
    requires Inv(st) && t < |st.threads| && Erases(st, t)
    ensures var key, next := st.threads[t].key, After(st, t, DoEvict(0));
      && (forall other, e: nat :: other != key ==> (ShowsKey(next, other, e) <==> ShowsKey(st, other, e)))
      && if next.threads[t].Idle? then !ShownIn(next, key) else Erases(next, t) && next.threads[t].key == key
  {
    var th, next := st.threads[t], After(st, t, DoEvict(0));
    AtSlot(st, t, Probe(st.bits, th.key, th.i));
    assert Knows(st.bits, st.slots, th);
    OneStep(st, t);
    forall e: nat | ShowsKey(next, th.key, e)
      ensures MayErase(st.bits, next.threads[t], th.key, e)
    {
      assert ShowsKey(st, th.key, e);
      EraseStaysBefore(st, Choice(t, DoEvict(0)), next, t, th.key, e);
    }
  }

  lemma {:induction false} EraseFinishes(st: State, t: nat) returns (n: nat)
    requires Inv(st) && t < |st.threads| && Erases(st, t)
    ensures var key, now := st.threads[t].key, Alone(st, t, n);
      && now.threads[t].Idle? && !ShownIn(now, key)
      && forall other, e: nat :: other != key ==> (ShowsKey(now, other, e) <==> ShowsKey(st, other, e))
    decreases Pow2(st.bits) - st.threads[t].i, Stage(st.bits, st.threads[t])
  {
    var key, next := st.threads[t].key, After(st, t, DoEvict(0));
    EraseGetsOn(st, t, DoEvict(0));
    ErasesOn(st, t);
    if next.threads[t].Idle? {
      n := 1;
      assert Alone(st, t, 1) == Alone(next, t, 0);
    } else {
      n := EraseFinishes(next, t);
      n := n + 1;
    }
  }

  /** By itself an erase leaves no visible entry of its key, and hides no other. */
  lemma EraseAlone(st: State, t: nat, key: HashedKey) returns (n: nat)
    requires Inv(st) && t < |st.threads| && st.threads[t].Idle?
    ensures var now := Alone(After(st, t, DoErase(key)), t, n);
      && now.threads[t].Idle? && !ShownIn(now, key)
      && forall other, e: nat :: other != key ==> (ShowsKey(now, other, e) <==> ShowsKey(st, other, e))
  {
    var begun := After(st, t, DoErase(key));
    assert begun.slots == st.slots;
    n := EraseFinishes(begun, t);
  }

  // ----- insert

  /** What an insert at work knows when nobody disturbs it and no entry of its key is visible: what it reads is
      visible and of another key, and it has not passed over the empty slot `e` unless it has a slot already. */
  ghost predicate Inserts(st: State, t: nat, e: nat)
    requires Shaped(st) && t < |st.threads| && e < Pow2(st.bits)
  {
    var th := st.threads[t];
    && th.Insert? && th.i < Pow2(st.bits) && !th.insertAt.Boost?
    && (th.insertAt.ReadKey? || th.insertAt.TakeRefs? ==>
          st.slots[Probe(st.bits, th.key, th.i)].meta.state.Visible?)
    && !ShownIn(st, th.key)
    && (st.slots[e].meta.state.Empty? || th.insertAt.Fill? || th.insertAt.Publish?)
    && MayTake(st.bits, th, th.key, e)
  }

  /** Slot `s` shows a new entry of the key with that countdown, and with a handle if one is to be kept. */
  ghost predicate Published(st: State, now: State, s: nat, key: HashedKey, countdown: nat, keep: bool) {
    && ShowsKey(now, key, s) && now.slots[s].meta.acquire == countdown
    && s < |st.handles| && now.handles == st.handles[s := st.handles[s] + if keep then 1 else 0]
  }

  lemma InsertsOn(st: State, t: nat, e: nat)
    requires Inv(st) && t < |st.threads| && e < Pow2(st.bits) && Inserts(st, t, e)
    ensures var th, next := st.threads[t], After(st, t, DoEvict(0));
      if next.threads[t].Insert? then
        && Inserts(next, t, e) && next.handles == st.handles
        && next.threads[t].key == th.key && next.threads[t].countdown == th.countdown && next.threads[t].keep == th.keep
      else
        && next.threads[t].Idle?
        && exists s: nat :: Published(st, next, s, th.key, th.countdown, th.keep)
  {
    var th, next := st.threads[t], After(st, t, DoEvict(0));
    var s := Probe(st.bits, th.key, th.i);
    AtSlot(st, t, s);
    assert Knows(st.bits, st.slots, th);
    OneStep(st, t);
    InsertEnds(st, t);
    assert !ShowsKey(st, th.key, s);
    if next.threads[t].Insert? {
      forall x: nat
        ensures !ShowsKey(next, th.key, x)
      {
        assert !ShowsKey(st, th.key, x);
      }
      if next.slots[e].meta.state.Empty? && st.slots[e].meta.state.Empty? {
        InsertKeepsRoom(st, Choice(t, DoEvict(0)), next, t, th.key, e);
      }
    } else {
      assert Published(st, next, s, th.key, th.countdown, th.keep);
    }
  }

  lemma {:induction false} InsertFinishes(st: State, t: nat, e: nat) returns (n: nat, s: nat)
    requires Inv(st) && t < |st.threads| && e < Pow2(st.bits) && Inserts(st, t, e)
    ensures var th, now := st.threads[t], Alone(st, t, n);
      now.threads[t].Idle? && Published(st, now, s, th.key, th.countdown, th.keep)
    decreases ToGo(st.bits, st.threads[t])
  {
    var th, next := st.threads[t], After(st, t, DoEvict(0));
    OwnStepCounts(st, t, DoEvict(0));
    InsertsOn(st, t, e);
    if next.threads[t].Insert? {
      n, s := InsertFinishes(next, t, e);
      n := n + 1;
    } else {
      s :| Published(st, next, s, th.key, th.countdown, th.keep);
      n := 1;
      assert Alone(st, t, 1) == Alone(next, t, 0);
    }
  }

  /** By itself an insert of a key that no visible entry has publishes its entry if any slot is empty. */
  lemma InsertAlone(st: State, t: nat, key: HashedKey, countdown: nat, keep: bool, e: nat) returns (n: nat, s: nat)
    requires Inv(st) && t < |st.threads| && st.threads[t].Idle? && countdown > 0
    requires !ShownIn(st, key) && e < Pow2(st.bits) && st.slots[e].meta.state.Empty?
    ensures var now := Alone(After(st, t, DoInsert(key, countdown, keep)), t, n);
      now.threads[t].Idle? && Published(st, now, s, key, countdown, keep)
  {
    var begun := After(st, t, DoInsert(key, countdown, keep));
    assert begun.slots == st.slots && begun.handles == st.handles;
    assert forall x: nat :: ShowsKey(begun, key, x) <==> ShowsKey(st, key, x);
    n, s := InsertFinishes(begun, t, e);
  }
}
