/** How the usage of HyperClockTable wraps around for a while: the compare-exchange of a strict reservation finds the
    usage above the capacity and lowers it to the capacity, and what others give back before the reservation
    is settled is more than the usage. */
module ClockOverdraft {
  import opened ProbeSequence
  import opened ClockAccounts
  import opened ClockLedger

  const LARGE: nat := 10

  /** A standalone entry that fits its capacity. */
  function Large(w: World, key: HashedKey): Order {
    Order(key, w.fixedUsage + LARGE, 1, true, true, false, w.fixedUsage + w.fixedUsage + LARGE, false)
  }

  /** A small one under a strict limit that the first exceeds. */
  function Small(w: World, key: HashedKey): Order {
    Order(key, 1, 1, true, true, false, w.fixedUsage + 1, true)
  }

  /** What the small one has reserved: less than nothing. */
  function Reservation(w: World): Tally {
    var full := w.fixedUsage + w.fixedUsage + LARGE;
    Tally(w.fixedUsage + 1 - full, full + 1 - (w.fixedUsage + 1), 0, 0)
  }

  function Scene(w: World, usage: int, standalone: int, alone: seq<Detached>, first: Job, second: Job): World
    requires |w.jobs| >= 2
  {
    w.(usage := usage, standaloneUsage := standalone, alone := alone, jobs := w.jobs[0 := first][1 := second])
  }

  /** The first thread charges the large entry. */
  function Charging(w: World, key: HashedKey): seq<World>
    requires |w.jobs| >= 2
  {
    var o := Large(w, key);
    var full := w.fixedUsage + o.charge;
    [w,
     Scene(w, w.fixedUsage, 0, [], Announced(o, false), Rest),
     Scene(w, w.fixedUsage, 0, [], Adjusting(o, false, Tally(0, 0, 0, 0)), Rest),
     Scene(w, full, 0, [], Detaching(o.charge), Rest),
     Scene(w, full, o.charge, [Detached(o.charge, 1)], Rest, Rest)]
  }

  /** The second reserves for the small one, and the first gives the large one back. */
  function Overdrawing(w: World, key: HashedKey): seq<World>
    requires |w.jobs| >= 2
  {
    var large, o := Large(w, key).charge, Small(w, key);
    var full := w.fixedUsage + large;
    var evicting := Evicting(o, false, Reservation(w));
    [Scene(w, full, large, [Detached(large, 1)], Rest, Announced(o, false)),
     Scene(w, full, large, [Detached(large, 1)], Rest, Loaded(o, false, full, false)),
     Scene(w, o.capacity, large, [Detached(large, 1)], Rest, evicting),
     Scene(w, o.capacity, large, [Detached(large, 0)], Freeing(large), evicting),
     Scene(w, o.capacity, 0, [Detached(large, 0)], Uncharging(large), evicting),
     Scene(w, o.capacity - large, 0, [Detached(large, 0)], Rest, evicting)]
  }

  function Turns(w: World, key: HashedKey): seq<Turn> {
    [Turn(0, Begin(Large(w, key))), Turn(0, Account), Turn(0, Account), Turn(0, Account),
     Turn(1, Begin(Small(w, key))), Turn(1, Account), Turn(1, Account),
     Turn(0, ReleaseAlone(0)), Turn(0, Account), Turn(0, Account)]
  }

  lemma ChargingFollows(w: World, key: HashedKey, x: nat)
    requires Fresh(w) && |w.jobs| >= 2 && x < 4
    ensures Follows(Charging(w, key)[x], Turns(w, key)[x], Charging(w, key)[x + 1])
  {
    FreshIsGood(w);
    var run := Charging(w, key);
    assert run[x].table == w.table;
    assert run[x + 1].jobs == run[x].jobs[0 := run[x + 1].jobs[0]];
  }

  lemma OverdrawingFollows(w: World, key: HashedKey, x: nat)
    requires Fresh(w) && |w.jobs| >= 2 && x < 5
    ensures Follows(Overdrawing(w, key)[x], Turns(w, key)[5 + x], Overdrawing(w, key)[x + 1])
  {
    FreshIsGood(w);
    var run := Overdrawing(w, key);
    assert run[x].table == w.table;
    assert run[x + 1].jobs == run[x].jobs[Turns(w, key)[5 + x].thread := run[x + 1].jobs[Turns(w, key)[5 + x].thread]];
  }

  /** From every empty table with two threads there is an interleaving that takes the usage below zero. */
  lemma LoweredLimitUnderflows(w: World, key: HashedKey)
    requires Fresh(w) && |w.jobs| >= 2
    ensures var run := Charging(w, key) + Overdrawing(w, key);
      && IsHistory(run, Turns(w, key))
      && Shape(run[6]) && Lowers(run[6], Turns(w, key)[6]) && !NobodyOverdrawn(run[7])
      && run[9].usage < Owed(run[9].jobs[0])
      && run[10].usage < 0
  {
    var run := Charging(w, key) + Overdrawing(w, key);
    assert !Solvent(run[7].jobs[1]);
    forall x | 0 <= x < 10
      ensures Follows(run[x], Turns(w, key)[x], run[x + 1])
    {
      if x < 4 {
        ChargingFollows(w, key, x);
      } else if x > 4 {
        OverdrawingFollows(w, key, x - 5);
      } else {
        FreshIsGood(w);
        assert run[5].jobs == run[4].jobs[1 := run[5].jobs[1]];
      }
    }
  }
}
