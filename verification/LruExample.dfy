/** A shard whose pools a lowered capacity breaks. The capacity goes from 20 to 16 with a quarter of it for
    each pool, so a high entry of 5 is left in a high pool of 4. */
module LruExample {
  import opened CacheTypes
  import opened LruPools
  import opened LruLinks
  import opened LruShelf
  import opened LruRuns
  import opened LruShard
  import LruTable

  const WIDE := Config(20, false, 0.25, 0.25)
  const NARROW := Config(16, false, 0.25, 0.25)
  const EMPTY := Shelf(map[], map[], 0, 0, Pools([], 0, 0, 0, 0, 0))

  const FIRST := Fresh("a", 5, High, false)

  /** The shard with the high entry. */
  const FILLED := Shelf(map["a" := 0], map[0 := FIRST], 5, 1, Pools([Item(0, 5, true, false)], 0, 0, 5, 5, 0))

  lemma Caps()
    ensures WIDE.HighCap() == WIDE.LowCap() == 5.0 && NARROW.HighCap() == NARROW.LowCap() == 4.0
  {
    ShareIsProduct(20, 0.25);
    ShareIsProduct(16, 0.25);
  }

  lemma EmptyIsValid()
    ensures LruRuns.Valid(EMPTY, WIDE)
  {
  }

  lemma HighEntryGoesIn()
    ensures Sound(EMPTY) && InsertItem(EMPTY, WIDE, FIRST) == Ends(FILLED)
  {
    EmptyIsValid();
    Caps();
    var p := AddHigh(EMPTY.pools, 0, 5);
    assert p == FILLED.pools;
    AddHighIsRanged(EMPTY.pools, 0, 5);
    assert Maintain(p, 5.0, 5.0) == Done(p);
  }

  lemma FilledIsRanged()
    ensures Ranged(FILLED.pools)
  {
    assert Sum(FILLED.pools.list, 0, 1) == 5;
  }

  /** A small low entry is linked with no failing assertion. */
  lemma SmallEntryIsLinked()
    ensures Ranged(FILLED.pools) && Link(FILLED.pools, ToLow, 1, 1, 4.0, 4.0).Done?
  {
    FilledIsRanged();
    var p := AddLow(FILLED.pools, 1, 1);
    AddLowIsRanged(FILLED.pools, 1, 1);
    assert p == Pools([Item(1, 1, false, true), Item(0, 5, true, false)], 0, 0, 6, 5, 1);
    var q := HighToLow(p);
    assert q == Pools([Item(1, 1, false, true), Item(0, 5, true, false)], 0, 1, 6, 4, 2);
    assert TrimHigh(p, 4.0) == TrimHigh(q, 4.0) == Done(q);
    assert TrimLow(q, 4.0) == Done(q);
  }

  /** A large one meets an assertion that fails: it is taken for a high entry, and the high usage is smaller. */
  lemma LargeEntryAborts()
    ensures Ranged(FILLED.pools) && Link(FILLED.pools, ToLow, 1, 6, 4.0, 4.0) == AssertionFails
  {
    FilledIsRanged();
    var p := AddLow(FILLED.pools, 1, 6);
    AddLowIsRanged(FILLED.pools, 1, 6);
    assert p == Pools([Item(1, 6, false, true), Item(0, 5, true, false)], 0, 0, 11, 5, 6);
    assert TrimHigh(p, 4.0) == AssertionFails;
  }

  lemma LowEntryBreaks(charge: nat)
    requires LruRuns.Valid(FILLED, NARROW) && (charge == 1 || charge == 6)
    ensures InsertItem(FILLED, NARROW, Fresh("b", charge, Low, false)).Ends? <==> charge == 1
    ensures InsertBreaks(FILLED, NARROW, Fresh("b", charge, Low, false))
  {
    Caps();
    var h := Fresh("b", charge, Low, false);
    SmallEntryIsLinked();
    LargeEntryAborts();
    assert EvictTo(FILLED, charge, 16) == Ends(FILLED);
    assert DropKey(FILLED, "b") == Ends(FILLED);
    assert BeforeLink(FILLED, NARROW, h) == FILLED.Ledger();
    assert HighCharge(FILLED.pools.list) == 5 by {
      assert FILLED.pools.list[..0] == [];
    }
  }

  const ADD_HIGH := DoInsert("a", 5, High, false)
  const LOWER := DoSetCapacity(16)

  lemma HighEntryStep()
    ensures Sound(EMPTY) && LruRuns.Apply(EMPTY, WIDE, ADD_HIGH) == Ends(FILLED)
    ensures Reconfigured(WIDE, ADD_HIGH) == WIDE
  {
    HighEntryGoesIn();
  }

  lemma LowerStep()
    requires Sound(FILLED)
    ensures LruRuns.Apply(FILLED, WIDE, LOWER) == Ends(FILLED) && Reconfigured(WIDE, LOWER) == NARROW
  {
  }

  lemma LowEntryStep(charge: nat, op: Op)
    requires LruRuns.Valid(FILLED, NARROW) && (charge == 1 || charge == 6)
    requires op == DoInsert("b", charge, Low, false)
    ensures LruRuns.Apply(FILLED, NARROW, op).Ends? <==> charge == 1
    ensures charge == 1 ==> !Segmented(LruRuns.Apply(FILLED, NARROW, op).shelf.pools)
  {
    LowEntryBreaks(charge);
    assert Sum(FILLED.pools.list, 0, 1) == 5;
    InsertKeepsPoolsExactly(FILLED, NARROW, Fresh("b", charge, Low, false));
  }

  /** The constructor, a high entry, a lower capacity and a low entry: a small one leaves pools that are not
      in order although no assertion failed, and a large one meets an assertion that fails. */
  method LoweredCapacityBreaksPools(charge: nat) returns (shard: Shard, ok: bool)
    requires charge == 1 || charge == 6
    ensures ok <==> charge == 1
    ensures ok ==> shard.Valid() && !shard.InOrder()
  {
    shard := new Shard(20, false, 0.25, 0.25, LruTable.MAX_BITS, key => 0);
    HighEntryStep();
    var high := shard.Perform(ADD_HIGH);
    LowerStep();
    var lower := shard.Perform(LOWER);
    LowEntryStep(charge, DoInsert("b", charge, Low, false));
    ok := shard.Perform(DoInsert("b", charge, Low, false));
  }
}
