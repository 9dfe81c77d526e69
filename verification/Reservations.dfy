/** Cache reservations: a manager that reserves memory in a cache with dummy entries, and the ledger
    that moves part of each placeholder from the primary to the secondary cache. */
module Reservations {

  /** kSizeDummyEntry: 256 KiB. */
  const DUMMY_SIZE: nat := 262144

  /** The size of `n` dummy entries. */
  function Size(n: nat): nat {
    DUMMY_SIZE * n
  }

  /** How many dummy entries cover `memory` bytes. */
  function Cover(memory: nat): nat {
    (memory + DUMMY_SIZE - 1) / DUMMY_SIZE
  }

  /** Cover is the least number that does. */
  lemma CoverIsLeast(memory: nat, n: nat)
    ensures memory <= Size(n) <==> Cover(memory) <= n
  {
  }

  lemma CoverGrows(a: nat, b: nat)
    requires a <= b
    ensures Cover(a) <= Cover(b)
  {
  }

  class CacheReservationManager {
    const delayedDecrease: bool
    var memoryUsed: nat
    var reserved: nat
    var handles: seq<nat>
    var nextHandle: nat

    ghost predicate Valid()
      reads this
    {
      && reserved == Size(|handles|)
      && (forall i :: 0 <= i < |handles| ==> handles[i] < nextHandle)
      && (forall i, j :: 0 <= i < j < |handles| ==> handles[i] != handles[j])
    }

    constructor (delayedDecrease: bool)
      ensures Valid() && memoryUsed == 0 && handles == [] && this.delayedDecrease == delayedDecrease
    {
      this.delayedDecrease := delayedDecrease;
      memoryUsed, reserved, handles, nextHandle := 0, 0, [], 0;
    }

    /** Insert dummy entries until they cover the memory or the cache, which takes `accepts` more of
        them, refuses one. What was inserted stays. */
    method IncreaseCacheReservation(memory: nat, accepts: nat) returns (ok: bool)
      requires Valid() && |handles| <= Cover(memory)
      modifies this`reserved, this`handles, this`nextHandle
      ensures Valid() && old(handles) <= handles
      ensures ok == (Cover(memory) <= |old(handles)| + accepts)
      ensures |handles| == if ok then Cover(memory) else |old(handles)| + accepts
    {
      var left := accepts;
      CoverIsLeast(memory, |handles|);
      while memory > reserved
        invariant Valid() && old(handles) <= handles && |handles| + left == |old(handles)| + accepts
        invariant |handles| <= Cover(memory)
        decreases Cover(memory) - |handles|
      {
        CoverIsLeast(memory, |handles|);
        if left == 0 {
          return false;
        }
        left := left - 1;
        handles := handles + [nextHandle];
        nextHandle := nextHandle + 1;
        reserved := reserved + DUMMY_SIZE;
      }
      CoverIsLeast(memory, |handles|);
      return true;
    }

    /** Release dummy entries, newest first, as long as the others still cover the memory. */
    method DecreaseCacheReservation(memory: nat)
      requires Valid() && Cover(memory) <= |handles|
      modifies this`reserved, this`handles
      ensures Valid() && |handles| == Cover(memory) && handles <= old(handles)
    {
      while memory + DUMMY_SIZE <= reserved
        invariant Valid() && Cover(memory) <= |handles| && handles <= old(handles)
        decreases |handles|
      {
        assert handles != [];
        handles := handles[..|handles| - 1];
        reserved := reserved - DUMMY_SIZE;
        CoverIsLeast(memory, |handles|);
      }
      CoverIsLeast(memory, |handles|);
      CoverIsLeast(memory, if |handles| > 0 then |handles| - 1 else 0);
    }

    /** It fails exactly when the cache refuses an entry it needs. Otherwise the entries kept are the
        least that cover the memory used, except that a delayed decrease keeps them all exactly while at
        least three quarters of the reservation is used. */
    method UpdateCacheReservation(memory: nat, accepts: nat) returns (ok: bool)
      requires Valid()
      modifies this`memoryUsed, this`reserved, this`handles, this`nextHandle
      ensures Valid() && memoryUsed == memory
      ensures ok == (Cover(memory) <= |old(handles)| + accepts)
      ensures !ok ==> |handles| == |old(handles)| + accepts
      ensures ok ==>
        if delayedDecrease && old(reserved) / 4 * 3 <= memory < old(reserved) then handles == old(handles)
        else |handles| == Cover(memory)
    {
      memoryUsed := memory;
      CoverIsLeast(memory, |handles|);
      if memory == reserved {
        CoverIsLeast(memory, if |handles| > 0 then |handles| - 1 else 0);
        return true;
      } else if memory > reserved {
        ok := IncreaseCacheReservation(memory, accepts);
      } else if delayedDecrease && memory >= reserved / 4 * 3 {
        return true;
      } else {
        DecreaseCacheReservation(memory);
        return true;
      }
    }

    /** MakeCacheReservation: the handle stands for the amount, which counts as used even if the cache
        refused to reserve it. */
    method MakeCacheReservation(amount: nat, accepts: nat) returns (ok: bool, handle: nat)
      requires Valid()
      modifies this`memoryUsed, this`reserved, this`handles, this`nextHandle
      ensures Valid() && handle == amount && memoryUsed == old(memoryUsed) + amount
      ensures ok == (Cover(memoryUsed) <= |old(handles)| + accepts)
      ensures ok && !delayedDecrease ==> |handles| == Cover(memoryUsed)
      ensures !ok ==> |handles| == |old(handles)| + accepts
    {
      ok := UpdateCacheReservation(memoryUsed + amount, accepts);
      handle := amount;
    }

    /** Dropping the handle takes back its amount; the reservation is then the least again, whether or not
        the cache had refused it. */
    method ReleaseCacheReservation(handle: nat)
      requires Valid() && handle <= memoryUsed
      modifies this`memoryUsed, this`reserved, this`handles, this`nextHandle
      ensures Valid() && memoryUsed == old(memoryUsed) - handle
      ensures !delayedDecrease && Cover(memoryUsed) <= |old(handles)| ==> |handles| == Cover(memoryUsed)
    {
      var _ := UpdateCacheReservation(memoryUsed - handle, 0);
    }

    /** A reservation that is made and dropped leaves no trace, even one that was refused half way. */
    method ReserveAndRelease(amount: nat, accepts: nat)
      requires Valid() && !delayedDecrease && |handles| == Cover(memoryUsed)
      modifies this`memoryUsed, this`reserved, this`handles, this`nextHandle
      ensures Valid() && memoryUsed == old(memoryUsed) && |handles| == |old(handles)| && reserved == old(reserved)
    {
      CoverGrows(memoryUsed, memoryUsed + amount);
      var _, handle := MakeCacheReservation(amount, accepts);
      ReleaseCacheReservation(handle);
    }

    /** ConcurrentCacheReservationManager: by a difference, in either direction. */
    method UpdateBy(delta: nat, increase: bool, accepts: nat) returns (ok: bool)
      requires Valid() && (!increase ==> delta <= memoryUsed)
      modifies this`memoryUsed, this`reserved, this`handles, this`nextHandle
      ensures Valid() && memoryUsed == if increase then old(memoryUsed) + delta else old(memoryUsed) - delta
      ensures ok == (Cover(memoryUsed) <= |old(handles)| + accepts)
      ensures ok && !delayedDecrease ==> |handles| == Cover(memoryUsed)
    {
      if increase {
        ok := UpdateCacheReservation(memoryUsed + delta, accepts);
      } else {
        ok := UpdateCacheReservation(memoryUsed - delta, accepts);
      }
    }
  }

  // ----- the ledger of the secondary adapter

  /** A placeholder in the primary cache: its charge and the references to it. */
  datatype Placeholder = Placeholder(charge: nat, refs: nat, present: bool)

  /** The part of a charge that the secondary cache bears. */
  function SecondaryShare(ratio: real, charge: nat): (share: nat)
    requires ratio >= 0.0
  {
    SecondaryShareIsPositive(ratio, charge as real);
    (charge as real * ratio).Floor
  }

  lemma SecondaryShareIsPositive(a: real, b: real)
    requires a >= 0.0 && b >= 0.0
    ensures (b * a).Floor >= 0
  {
  }

  /** The largest whole number that is no more than the ratio of the charge. */
  lemma SecondaryShareIsFloor(ratio: real, charge: nat)
    requires ratio >= 0.0
    ensures var share := SecondaryShare(ratio, charge) as real; share <= ratio * charge as real < share + 1.0
  {
  }

  function ShareOf(ratio: real, p: Placeholder): nat
    requires ratio >= 0.0
  {
    if p.present then SecondaryShare(ratio, p.charge) else 0
  }

  /** The shares of all placeholders that are in the primary cache. */
  function Shares(ratio: real, ps: seq<Placeholder>): nat
    requires ratio >= 0.0
  {
    if ps == [] then 0 else Shares(ratio, ps[..|ps| - 1]) + ShareOf(ratio, ps[|ps| - 1])
  }

  lemma SharesOneMore(ratio: real, ps: seq<Placeholder>, p: Placeholder)
    requires ratio >= 0.0
    ensures Shares(ratio, ps + [p]) == Shares(ratio, ps) + ShareOf(ratio, p)
  {
    assert (ps + [p])[..|ps|] == ps;
  }

  lemma {:induction false} SharesAfterUpdate(ratio: real, ps: seq<Placeholder>, i: nat, p: Placeholder)
    requires ratio >= 0.0 && i < |ps|
    ensures Shares(ratio, ps[i := p]) == Shares(ratio, ps) - ShareOf(ratio, ps[i]) + ShareOf(ratio, p)
  {
    var last := |ps| - 1;
    if i == last {
      assert ps[i := p][..last] == ps[..last];
    } else {
      SharesAfterUpdate(ratio, ps[..last], i, p);
      assert ps[i := p][..last] == ps[..last][i := p];
    }
  }

  datatype Op =
    | DoInsert(charge: nat, accepts: nat, others: nat)
    | DoRef(handle: nat)
    | DoRelease(handle: nat, eraseIfLast: bool, accepts: nat, others: nat)

  /** The primary cache drops an entry whose last reference is released with erasing. */
  function AfterRelease(p: Placeholder, eraseIfLast: bool): Placeholder
    requires p.refs > 0
  {
    Placeholder(p.charge, p.refs - 1, p.present && !(eraseIfLast && p.refs == 1))
  }

  /** The placeholders, and by how much the secondary cache is deflated. */
  datatype Balance = Balance(placeholders: seq<Placeholder>, deflated: nat)

  /** What an operation makes of them; one that asks for more than there is does nothing. */
  function Operated(ratio: real, capacity: nat, b: Balance, op: Op): Balance
    requires ratio >= 0.0
  {
    var ps := b.placeholders;
    match op
    case DoInsert(charge, _, _) =>
      if SecondaryShare(ratio, charge) <= capacity - b.deflated then
        Balance(ps + [Placeholder(charge, 1, true)], b.deflated + SecondaryShare(ratio, charge))
      else b
    case DoRef(h) =>
      if h < |ps| && ps[h].present then Balance(ps[h := ps[h].(refs := ps[h].refs + 1)], b.deflated) else b
    case DoRelease(h, eraseIfLast, _, _) =>
      if h < |ps| && ps[h].present && ps[h].refs > 0 &&
         (eraseIfLast ==> SecondaryShare(ratio, ps[h].charge) <= b.deflated)
      then
        Balance(ps[h := AfterRelease(ps[h], eraseIfLast)],
                if eraseIfLast then b.deflated - SecondaryShare(ratio, ps[h].charge) else b.deflated)
      else b
  }

  function OperatedAll(ratio: real, capacity: nat, b: Balance, ops: seq<Op>): Balance
    requires ratio >= 0.0
  {
    if ops == [] then b
    else Operated(ratio, capacity, OperatedAll(ratio, capacity, b, ops[..|ops| - 1]), ops[|ops| - 1])
  }

  class SecondaryAdapter {
    /** The reservation against the primary cache, and the one that deflates the secondary cache. */
    const primary: CacheReservationManager
    const secondary: CacheReservationManager
    const secondaryCapacity: nat
    const ratio: real
    var placeholders: seq<Placeholder>

    /** What the primary cache reserves for the secondary and what the secondary was deflated by always
        add up to the secondary capacity. */
    ghost predicate Valid()
      reads this, primary, secondary
    {
      && primary != secondary && !primary.delayedDecrease && !secondary.delayedDecrease
      && primary.Valid() && secondary.Valid() && ratio >= 0.0
      && primary.memoryUsed + secondary.memoryUsed == secondaryCapacity
    }

    /** By how much the deflation falls behind the shares of the placeholders that are there. */
    ghost function Drift(): int
      requires Valid()
      reads this, primary, secondary
    {
      Shares(ratio, placeholders) - secondary.memoryUsed
    }

    /** The secondary cache is deflated by the shares of the placeholders that are there. */
    ghost predicate Tracks()
      requires Valid()
      reads this, primary, secondary
    {
      Drift() == 0
    }

    ghost function Now(): Balance
      reads this, secondary
    {
      Balance(placeholders, secondary.memoryUsed)
    }

    /** A manager holds the least number of dummy entries that covers its memory. */
    ghost predicate PrimaryLean()
      reads this, primary
    {
      |primary.handles| == Cover(primary.memoryUsed)
    }

    ghost predicate SecondaryLean()
      reads this, secondary
    {
      |secondary.handles| == Cover(secondary.memoryUsed)
    }

    constructor (secondaryCapacity: nat, primaryCapacity: nat, accepts: nat)
      requires primaryCapacity > 0 && Cover(secondaryCapacity) <= accepts
      ensures Valid() && Tracks() && PrimaryLean() && SecondaryLean()
      ensures fresh(primary) && fresh(secondary) && placeholders == []
      ensures this.secondaryCapacity == secondaryCapacity == primary.memoryUsed
      ensures ratio == secondaryCapacity as real / primaryCapacity as real
    {
      primary := new CacheReservationManager(false);
      secondary := new CacheReservationManager(false);
      this.secondaryCapacity := secondaryCapacity;
      ratio := secondaryCapacity as real / primaryCapacity as real;
      placeholders := [];
      new;
      var ok := primary.UpdateCacheReservation(secondaryCapacity, accepts);
      assert ok;
    }

    /** The primary cache has taken a placeholder: deflate the secondary by its share, and give that
        share back to the primary. Only the secondary side reserves more, so only it can be refused;
        the primary stays least if it was. The caches take `accepts` and `others` more dummy entries. */
    method Insert(charge: nat, accepts: nat, others: nat) returns (handle: nat, ok: bool)
      requires Valid() && SecondaryShare(ratio, charge) <= primary.memoryUsed
      modifies this, primary, secondary
      ensures Valid() && Drift() == old(Drift())
      ensures handle == |old(placeholders)| && placeholders == old(placeholders) + [Placeholder(charge, 1, true)]
      ensures secondary.memoryUsed == old(secondary.memoryUsed) + SecondaryShare(ratio, charge)
      ensures ok == (Cover(secondary.memoryUsed) <= |old(secondary.handles)| + accepts)
      ensures ok ==> SecondaryLean()
      ensures old(PrimaryLean()) ==> PrimaryLean()
    {
      handle := |placeholders|;
      SharesOneMore(ratio, placeholders, Placeholder(charge, 1, true));
      placeholders := placeholders + [Placeholder(charge, 1, true)];
      var share := SecondaryShare(ratio, charge);
      ok := secondary.UpdateBy(share, true, accepts);
      CoverGrows(primary.memoryUsed - share, primary.memoryUsed);
      var _ := primary.UpdateBy(share, false, others);
    }

    /** One more reference to a placeholder. */
    method Ref(handle: nat)
      requires Valid() && handle < |placeholders| && placeholders[handle].present
      modifies this
      ensures Valid() && Drift() == old(Drift())
      ensures placeholders == old(placeholders)[handle :=
        old(placeholders)[handle].(refs := old(placeholders)[handle].refs + 1)]
    {
      var p := placeholders[handle];
      SharesAfterUpdate(ratio, placeholders, handle, p.(refs := p.refs + 1));
      placeholders := placeholders[handle := p.(refs := p.refs + 1)];
    }

    /** What a release gives back although the placeholder stays. */
    function GivenBackEarly(handle: nat, eraseIfLast: bool): nat
      requires handle < |placeholders| && ratio >= 0.0
      reads this
    {
      if eraseIfLast && placeholders[handle].refs != 1 then SecondaryShare(ratio, placeholders[handle].charge) else 0
    }

    /** An erasing release gives the share back before the primary cache decides whether this was the last
        reference. So the deflation falls behind the placeholders by the share unless it was. Only the
        primary side reserves more, so the secondary stays least if it was. */
    method Release(handle: nat, eraseIfLast: bool, accepts: nat, others: nat) returns (ok: bool)
      requires Valid() && handle < |placeholders| && placeholders[handle].present && placeholders[handle].refs > 0
      requires eraseIfLast ==> SecondaryShare(ratio, placeholders[handle].charge) <= secondary.memoryUsed
      modifies this, primary, secondary
      ensures Valid() && Drift() == old(Drift()) + old(GivenBackEarly(handle, eraseIfLast))
      ensures placeholders == old(placeholders)[handle := AfterRelease(old(placeholders)[handle], eraseIfLast)]
      ensures secondary.memoryUsed ==
        old(secondary.memoryUsed) - if eraseIfLast then SecondaryShare(ratio, old(placeholders)[handle].charge) else 0
      ensures ok == (eraseIfLast ==> Cover(primary.memoryUsed) <= |old(primary.handles)| + accepts)
      ensures ok && eraseIfLast ==> PrimaryLean()
      ensures ok && old(PrimaryLean()) ==> PrimaryLean()
      ensures old(SecondaryLean()) ==> SecondaryLean()
    {
      var p := placeholders[handle];
      ok := true;
      if eraseIfLast {
        var share := SecondaryShare(ratio, p.charge);
        CoverGrows(secondary.memoryUsed - share, secondary.memoryUsed);
        var _ := secondary.UpdateBy(share, false, others);
        ok := primary.UpdateBy(share, true, accepts);
      }
      SharesAfterUpdate(ratio, placeholders, handle, AfterRelease(p, eraseIfLast));
      placeholders := placeholders[handle := AfterRelease(p, eraseIfLast)];
    }

    /** Any run of inserts, references and releases whose shares fit keeps the two sides in balance. Each
        manager stays least as long as none of its own insertions is refused, whatever happens to the other.
        The deflation falls behind the placeholders by exactly what was given back early, so it goes on
        matching them if and only if nothing was. */
    method Run(ops: seq<Op>) returns (primaryOk: bool, secondaryOk: bool, early: nat)
      requires Valid()
      modifies this, primary, secondary
      ensures Valid() && Drift() == old(Drift()) + early
      ensures Now() == OperatedAll(ratio, secondaryCapacity, old(Now()), ops)
      ensures old(Tracks()) ==> (Tracks() <==> early == 0)
      ensures primaryOk && old(PrimaryLean()) ==> PrimaryLean()
      ensures secondaryOk && old(SecondaryLean()) ==> SecondaryLean()
    {
      primaryOk, secondaryOk, early := true, true, 0;
      for i := 0 to |ops|
        invariant Valid() && Drift() == old(Drift()) + early
        invariant Now() == OperatedAll(ratio, secondaryCapacity, old(Now()), ops[..i])
        invariant primaryOk && old(PrimaryLean()) ==> PrimaryLean()
        invariant secondaryOk && old(SecondaryLean()) ==> SecondaryLean()
      {
        var p, s, e := Apply(ops[i]);
        primaryOk, secondaryOk, early := primaryOk && p, secondaryOk && s, early + e;
        assert ops[..i + 1][..i] == ops[..i];
      }
      assert ops[..|ops|] == ops;
    }

    method Apply(op: Op) returns (primaryOk: bool, secondaryOk: bool, early: nat)
      requires Valid()
      modifies this, primary, secondary
      ensures Valid() && Drift() == old(Drift()) + early && Now() == Operated(ratio, secondaryCapacity, old(Now()), op)
      ensures primaryOk && old(PrimaryLean()) ==> PrimaryLean()
      ensures secondaryOk && old(SecondaryLean()) ==> SecondaryLean()
    {
      primaryOk, secondaryOk, early := true, true, 0;
      match op
      case DoInsert(charge, accepts, others) =>
        if SecondaryShare(ratio, charge) <= primary.memoryUsed {
          var _, ok := Insert(charge, accepts, others);
          secondaryOk := ok;
        }
      case DoRef(h) =>
        if h < |placeholders| && placeholders[h].present {
          Ref(h);
        }
      case DoRelease(h, eraseIfLast, accepts, others) =>
        if h < |placeholders| && placeholders[h].present && placeholders[h].refs > 0 {
          if !eraseIfLast || SecondaryShare(ratio, placeholders[h].charge) <= secondary.memoryUsed {
            early := GivenBackEarly(h, eraseIfLast);
            primaryOk := Release(h, eraseIfLast, accepts, others);
          }
        }
    }
  }

  const EARLY: seq<Op> := [DoInsert(4, 1, 0), DoRef(0), DoRelease(0, true, 1, 0)]

  lemma EarlyBalance()
    ensures OperatedAll(0.5, 10, Balance([], 0), EARLY) == Balance([Placeholder(4, 1, true)], 0)
  {
    assert SecondaryShare(0.5, 4) == 2;
    var p := Placeholder(4, 1, true);
    assert EARLY[..2][..1][..0] == [];
    assert OperatedAll(0.5, 10, Balance([], 0), EARLY[..2][..1]) == Balance([p], 2);
    assert OperatedAll(0.5, 10, Balance([], 0), EARLY[..2]) == Balance([p.(refs := 2)], 2);
  }

  /** A placeholder with two references and an erasing release of one of them: the secondary cache has its
      share back while the placeholder is still there. */
  method EarlyReturn() returns (adapter: SecondaryAdapter)
    ensures adapter.Valid() && !adapter.Tracks()
    ensures adapter.placeholders == [Placeholder(4, 1, true)] && adapter.secondary.memoryUsed == 0
  {
    adapter := new SecondaryAdapter(10, 20, Cover(10));
    EarlyBalance();
    assert adapter.Now() == Balance([], 0) && adapter.ratio == 0.5;
    var _, _, _ := adapter.Run(EARLY);
    assert adapter.Now() == Balance([Placeholder(4, 1, true)], 0);
    assert SecondaryShare(0.5, 4) == 2;
    assert Shares(0.5, adapter.placeholders[..0]) == 0;
  }
}
